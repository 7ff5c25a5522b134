/**
  Runs of the operations on the tree: create, mkdir, remove and rename, each
  renaming with whatever order Go's map iteration yields.
  */
module MemfsRuns {
  import opened Wrappers
  import opened MemfsTree
  import opened MemfsRename
  import opened MemfsNil
  import opened MemfsReplace
  import opened MemfsSibling

  datatype Op = Make(p: Path, dir: bool) | Drop(p: Path) | Relocate(from: Path, to: Path)

  datatype Outcome = Running(fs: FS) | Panicked

  function MakeOutcome(s: FS, p: Path, dir: bool): Outcome {
    if NewSafe(s, p, dir) then Running(NewFile(s, p, dir)) else Panicked
  }

  ghost function RenameOutcome(s: FS, from: Path, to: Path, order: seq<Path>): Outcome {
    if NeverPanics(s, from, to, Sources(from, order)) then Running(Rename(s, from, to, order).fs) else Panicked
  }

  // The operation may have this outcome. `lucky` says that renaming moves parents before children.
  ghost predicate Does(lucky: bool, s: FS, op: Op, o: Outcome) {
    match op
    case Make(p, dir) => o == MakeOutcome(s, p, dir)
    case Drop(p) => o == Running(RemoveFile(s, p))
    case Relocate(from, to) =>
      if from !in s.files then o == Running(s)
      else exists order :: InOrder(lucky, s, from, order) && o == RenameOutcome(s, from, to, order)
  }

  ghost predicate InOrder(lucky: bool, s: FS, from: Path, order: seq<Path>) {
    Enumerates(order, s) && (lucky ==> ParentsFirst(s, from, order))
  }

  // What is asked of an operation: paths are not created below files, and renaming does what it
  // is for.
  ghost predicate Allowed(s: FS, op: Op) {
    match op
    case Make(p, dir) => AncestorsAreDirs(s, p)
    case Drop(p) => true
    case Relocate(from, to) =>
      from in s.files ==> NoTextSibling(s, from) && (CanRename(s, from, to) || CanReplace(s, from, to))
  }

  // And what is asked if the order may be any: nothing lies two or more levels below a renamed path.
  ghost predicate AllowedAlways(s: FS, op: Op) {
    Allowed(s, op) && (op.Relocate? && op.from in s.files ==> Shallow(s, op.from))
  }

  ghost predicate Step(lucky: bool, s: FS, op: Op, t: FS) {
    (if lucky then Allowed(s, op) else AllowedAlways(s, op)) && Does(lucky, s, op, Running(t))
  }

  // A run from the empty tree on, without a panic.
  ghost predicate Run(lucky: bool, ops: seq<Op>, states: seq<FS>) {
    && |states| == |ops| + 1 && states[0] == EMPTY_FS
    && forall i :: 0 <= i < |ops| ==> Step(lucky, states[i], ops[i], states[i + 1])
  }

  // What one operation comes to, panics included.

  // The directories whose child map creating p writes: the missing ones above it, and the one
  // above those.
  predicate Written(s: FS, p: Path, d: Path) {
    d < p && forall k :: |d| < k < |p| ==> p[..k] !in s.files
  }

  lemma {:induction false} CreateSafeIff(s: FS, p: Path)
    requires p in s.files && IdsBelow(s) && AncestorsAreDirs(s, p)
    ensures CreateSafe(s, p) <==> forall d :: Written(s, p, d) ==> !NilAt(s, d)
    decreases |p|
  {
    if p != [] {
      var d, t := Dir(p), Store(s, Dir(p), true);
      assert d < p && Written(s, p, d);
      if d in s.files {
        forall e | Written(s, p, e)
          ensures e == d
        {
          assert p[..|d|] == d && e == p[..|e|];
        }
      } else {
        StoredAncestors(s, d, p);
        CreateSafeIff(t, d);
        forall e
          ensures Written(s, p, e) <==> e == d || Written(t, d, e)
        {
          WrittenAbove(s, p, e);
        }
      }
    }
  }

  lemma StoredAncestors(s: FS, d: Path, p: Path)
    requires IdsBelow(s) && AncestorsAreDirs(s, p) && d < p
    ensures IdsBelow(Store(s, d, true)) && AncestorsAreDirs(Store(s, d, true), d)
  {
  }

  lemma WrittenAbove(s: FS, p: Path, e: Path)
    requires p != [] && Dir(p) !in s.files
    ensures Written(s, p, e) <==> e == Dir(p) || Written(Store(s, Dir(p), true), Dir(p), e)
  {
    var d, t := Dir(p), Store(s, Dir(p), true);
    assert forall k :: 0 <= k < |d| ==> d[..k] == p[..k];
    assert e < d ==> e < p;
    if Written(s, p, e) && e != d {
      assert e == p[..|e|] && |e| < |d| && e == d[..|e|];
      forall k | |e| < k < |d|
        ensures d[..k] !in t.files
      {
        assert p[..k] !in s.files;
      }
    }
    if Written(t, d, e) {
      forall k | |e| < k < |p|
        ensures p[..k] !in s.files
      {
        if k < |d| {
          assert d[..k] !in t.files;
        }
      }
    }
  }

  // Creating a new path ends, with index and path map in agreement, exactly if no stored ancestor
  // is a file and no child map that is written is nil.
  lemma MakeWorksIff(s: FS, p: Path, dir: bool)
    requires Sound(s) && p !in s.files
    ensures (MakeOutcome(s, p, dir).Running? && Sound(MakeOutcome(s, p, dir).fs))
            <==> AncestorsAreDirs(s, p) && forall d :: Written(s, p, d) ==> !NilAt(s, d)
  {
    NewSoundIff(s, p, dir);
    if AncestorsAreDirs(s, p) {
      var t := Store(s, p, dir);
      assert IdsBelow(t) && AncestorsAreDirs(t, p);
      CreateSafeIff(t, p);
      forall d
        ensures Written(t, p, d) <==> Written(s, p, d)
      {
      }
    }
  }

  ghost predicate RenameWorks(s: FS, from: Path, to: Path, order: seq<Path>) {
    && NeverPanics(s, from, to, Sources(from, order))
    && !Rename(s, from, to, order).failed && Renamed(s, Rename(s, from, to, order).fs, from, to)
  }

  // Renaming ends and moves the subtree, in every iteration order, exactly if no path outside it
  // has the old name as a textual prefix, and no nil map is written.
  lemma RenameWorksIff(s: FS, from: Path, to: Path)
    requires CanRename(s, from, to)
    ensures (forall order :: Enumerates(order, s) ==> RenameWorks(s, from, to, order))
            <==> NoTextSibling(s, from) && TargetsWritable(s, from, to)
  {
    if forall order :: Enumerates(order, s) ==> RenameWorks(s, from, to, order) {
      var some := SomeListing(s.files.Keys);
      assert RenameWorks(s, from, to, some);
      RenameMovesSubtreeIff(s, from, to, some);
      RenameNeverPanicsIff(s, from, to);
    }
    if NoTextSibling(s, from) && TargetsWritable(s, from, to) {
      forall order | Enumerates(order, s)
        ensures RenameWorks(s, from, to, order)
      {
        RenameMovesSubtree(s, from, to, order);
        RenameNeverPanics(s, from, to, order);
      }
    }
  }

  ghost predicate ReplaceWorks(s: FS, from: Path, to: Path, order: seq<Path>) {
    && NeverPanics(s, from, to, Sources(from, order)) && !Rename(s, from, to, order).failed
    && Renamed(RemoveFile(s, to), Rename(s, from, to, order).fs, from, to)
  }

  lemma {:induction false} WithoutAbsent(order: seq<Path>, x: Path)
    requires x !in order
    ensures Without(order, x) == order
  {
    if order != [] {
      WithoutAbsent(order[..|order| - 1], x);
    }
  }

  // An order of the tree without the target is one of the tree with it, the target being last.
  lemma TargetLast(s: FS, to: Path, order: seq<Path>) returns (longer: seq<Path>)
    requires to in s.files && RemoveOutcome(s, to) == Removed && Enumerates(order, RemoveFile(s, to))
    ensures Enumerates(longer, s) && Without(longer, to) == order
  {
    longer := order + [to];
    WithoutAbsent(order, to);
    assert longer[..|order|] == order;
  }

  // The same for renaming onto a file or an empty directory.
  lemma ReplaceWorksIff(s: FS, from: Path, to: Path)
    requires CanReplace(s, from, to) && NoTextSibling(s, from)
    ensures (forall order :: Enumerates(order, s) ==> ReplaceWorks(s, from, to, order)) <==>
              from in RemoveFile(s, to).files && TargetsWritable(RemoveFile(s, to), from, to)
  {
    var b := RemoveFile(s, to);
    ClearedCanRename(s, from, to);
    var some := SomeListing(s.files.Keys);
    RenameReplaces(s, from, to, some);
    if forall order :: Enumerates(order, s) ==> ReplaceWorks(s, from, to, order) {
      forall order | Enumerates(order, b)
        ensures NeverPanics(b, from, to, Sources(from, order))
      {
        var longer := TargetLast(s, to, order);
        assert ReplaceWorks(s, from, to, longer);
        RenameReplaces(s, from, to, longer);
      }
      RenameNeverPanicsIff(b, from, to);
    }
    if TargetsWritable(b, from, to) {
      forall order | Enumerates(order, s)
        ensures ReplaceWorks(s, from, to, order)
      {
        RenameReplaces(s, from, to, order);
        RenameMovesOnto(s, from, to, order);
        RenameNeverPanics(b, from, to, Without(order, to));
      }
    }
  }

  ghost predicate RenameSound(s: FS, from: Path, to: Path, order: seq<Path>) {
    NeverPanics(s, from, to, Sources(from, order)) && Sound(Rename(s, from, to, order).fs)
  }

  // In one order it ends with an exact index if and only if parents come first and the target can
  // be created.
  lemma RenameSoundIff(s: FS, from: Path, to: Path, order: seq<Path>)
    requires CanRename(s, from, to) && NoTextSibling(s, from) && Enumerates(order, s)
    ensures RenameSound(s, from, to, order) <==> ParentsFirst(s, from, order) && CreateSafe(Relink(s, from, to), to)
  {
    RenameIndexExactIff(s, from, to, order);
    if RenameSound(s, from, to, order) {
      FirstIsSafe(s, from, to, order);
    }
    if ParentsFirst(s, from, order) && CreateSafe(Relink(s, from, to), to) {
      ParentsFirstNeverPanics(s, from, to, order);
    }
  }

  // In all orders it does if and only if nothing lies two or more levels below the renamed path
  // and the target can be created.
  lemma RenameAlwaysSoundIff(s: FS, from: Path, to: Path)
    requires CanRename(s, from, to) && NoTextSibling(s, from)
    ensures (forall order :: Enumerates(order, s) ==> RenameSound(s, from, to, order))
            <==> Shallow(s, from) && CreateSafe(Relink(s, from, to), to)
  {
    RenameAlwaysExactIff(s, from, to);
    if forall order :: Enumerates(order, s) ==> RenameSound(s, from, to, order) {
      var some := SomeListing(s.files.Keys);
      assert RenameSound(s, from, to, some);
      FirstIsSafe(s, from, to, some);
    }
    if Shallow(s, from) && CreateSafe(Relink(s, from, to), to) {
      forall order | Enumerates(order, s)
        ensures RenameSound(s, from, to, order)
      {
        ShallowParentsFirst(s, from, order);
        RenameSoundIff(s, from, to, order);
      }
    }
  }

  // Renaming onto something keeps the order of what is moved.

  lemma {:induction false} WithoutKeepsOrder(order: seq<Path>, x: Path, c: Path, p: Path)
    ensures MovedBefore(Without(order, x), c, p) ==> MovedBefore(order, c, p)
    ensures c in Without(order, x) ==> c in order
  {
    if order != [] {
      var before, last := order[..|order| - 1], order[|order| - 1];
      WithoutKeepsOrder(before, x, c, p);
      assert order == before + [last];
      AppendOrder(before, last, c, p);
      AppendOrder(Without(before, x), last, c, p);
    }
  }

  lemma StillParentsFirst(s: FS, from: Path, to: Path, order: seq<Path>)
    requires ParentsFirst(s, from, order)
    ensures ParentsFirst(RemoveFile(s, to), from, Without(order, to))
  {
    var t := RemoveFile(s, to);
    forall p, n | from < p && p in t.files && p + [n] in t.files
      ensures !MovedBefore(Without(order, to), p + [n], p)
    {
      WithoutKeepsOrder(order, to, p + [n], p);
      assert p in s.files && p + [n] in s.files;
    }
  }

  lemma RenamingSound(s: FS, from: Path, to: Path, order: seq<Path>)
    requires Sound(s) && from in s.files && Allowed(s, Relocate(from, to)) && InOrder(true, s, from, order)
    ensures Sound(Rename(s, from, to, order).fs)
  {
    if CanRename(s, from, to) {
      RenameIndexExactIff(s, from, to, order);
    } else {
      StillParentsFirst(s, from, to, order);
      RenameMovesOnto(s, from, to, order);
    }
  }

  lemma StepSound(lucky: bool, s: FS, op: Op, t: FS)
    requires Sound(s) && Step(lucky, s, op, t)
    ensures Sound(t)
  {
    match op {
      case Make(p, dir) =>
        NewFileSound(s, p, dir, {});
      case Drop(p) =>
        RemoveSound(s, p);
      case Relocate(from, to) =>
        if from in s.files {
          var order :| InOrder(lucky, s, from, order) && Running(t) == RenameOutcome(s, from, to, order);
          if !lucky {
            ShallowParentsFirst(s, from, order);
          }
          RenamingSound(s, from, to, order);
        }
    }
  }

  // The children index agrees with the path map after every run, of renamings that happen to move
  // parents first, or of renamings in any order with nothing two or more levels below.
  lemma {:induction false} RunSound(lucky: bool, ops: seq<Op>, states: seq<FS>, k: nat)
    requires Run(lucky, ops, states) && k < |states|
    ensures Sound(states[k])
  {
    if k > 0 {
      RunSound(lucky, ops, states, k - 1);
      assert Step(lucky, states[k - 1], ops[k - 1], states[k]);
      StepSound(lucky, states[k - 1], ops[k - 1], states[k]);
    }
  }

  // Panics.

  ghost predicate NoNil(s: FS) {
    forall d :: !NilAt(s, d)
  }

  lemma MakeKeepsNoNil(s: FS, p: Path, dir: bool)
    requires NoNil(s)
    ensures MakeOutcome(s, p, dir) == Running(NewFile(s, p, dir)) && NoNil(NewFile(s, p, dir))
  {
    if p !in s.files {
      var t := Store(s, p, dir);
      forall d
        ensures !NilAt(t, d) && !NilAt(NewFile(s, p, dir), d)
      {
        assert !NilAt(s, d);
        CreateMapGrows(t, p, s.next, d);
      }
      SafeWithoutNil(t, p);
    }
  }

  lemma RemoveKeepsNoNil(s: FS, p: Path)
    requires NoNil(s)
    ensures NoNil(RemoveFile(s, p))
  {
    forall d
      ensures !NilAt(RemoveFile(s, p), d)
    {
      assert !NilAt(s, d);
    }
  }

  lemma {:induction false} RunNoNil(lucky: bool, ops: seq<Op>, states: seq<FS>, k: nat)
    requires Run(lucky, ops, states) && k < |states| && forall i :: 0 <= i < |ops| ==> !ops[i].Relocate?
    ensures NoNil(states[k])
  {
    if k > 0 {
      RunNoNil(lucky, ops, states, k - 1);
      assert Step(lucky, states[k - 1], ops[k - 1], states[k]);
      var s, op := states[k - 1], ops[k - 1];
      assert !op.Relocate?;
      if op.Make? {
        MakeKeepsNoNil(s, op.p, op.dir);
      } else {
        RemoveKeepsNoNil(s, op.p);
      }
    }
  }

  // Without renaming no run ends in a panic.
  lemma OnlyRenamingLeadsToPanic(lucky: bool, ops: seq<Op>, states: seq<FS>, op: Op)
    requires Run(lucky, ops, states) && forall i :: 0 <= i < |ops| ==> !ops[i].Relocate?
    requires !op.Relocate?
    ensures !Does(lucky, states[|ops|], op, Panicked)
  {
    RunNoNil(lucky, ops, states, |ops|);
    if op.Make? {
      MakeKeepsNoNil(states[|ops|], op.p, op.dir);
    }
  }

  // The target and what would be a child of it, after renaming a directory without children.

  lemma NothingBelowTarget(s: FS, from: Path, to: Path, t: FS, n: string)
    requires CanRename(s, from, to) && Renamed(s, t, from, to) && Lookup(s, from).Nil?
    ensures to in t.files && t.files[to] == s.files[from] && IsDir(t, t.files[to]) == IsDir(s, s.files[from])
    ensures to + [n] !in t.files
  {
    var p := to + [n];
    SoundMeans(s, from, n);
    assert from + [n] !in s.files;
    assert to[|to|..] == [] && p[|to|..] == [n];
    assert Origin(from, to, to) == from && Origin(from, to, p) == from + [n];
    assert to <= p && !(p < to);
    assert RenamedAt(s, t, from, to, to) && RenamedAt(s, t, from, to, p);
  }

  lemma NextGrows(s: FS, from: Path, to: Path, order: seq<Path>)
    requires CanRename(s, from, to) && NoTextSibling(s, from) && Enumerates(order, s)
    ensures s.files[from] < s.next <= Rename(s, from, to, order).fs.next
  {
    SourcesAre(s, from, order);
    PlayKeeps(s, from, to, Sources(from, order));
  }

  // In a directory renamed before anything was ever created in it, creating anything panics.
  lemma CreateBelowRenamedPanics(s: FS, from: Path, to: Path, order: seq<Path>, n: string, dir: bool)
    requires CanRename(s, from, to) && NoTextSibling(s, from) && Enumerates(order, s)
    requires IsDir(s, s.files[from]) && Lookup(s, from).Nil?
    ensures MakeOutcome(Rename(s, from, to, order).fs, to + [n], dir) == Panicked
  {
    var t := Rename(s, from, to, order).fs;
    RenamedIsNilIff(s, from, to, order);
    RenameMovesSubtree(s, from, to, order);
    NothingBelowTarget(s, from, to, t, n);
    NextGrows(s, from, to, order);
    assert Dir(to + [n]) == to;
    PanicsBelowNil(t, to + [n], dir);
  }

  lemma PanicsBelowNil(s: FS, p: Path, dir: bool)
    requires p != [] && p !in s.files && Dir(p) in s.files && s.files[Dir(p)] != s.next
    requires IsDir(s, s.files[Dir(p)]) && NilAt(s, Dir(p))
    ensures !NewSafe(s, p, dir)
  {
    var t := Store(s, p, dir);
    assert ParentUsable(t, p) && NilAt(t, Dir(p));
  }
}
