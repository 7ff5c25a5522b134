/**
  The textual prefix test of renaming, and what it does to paths outside the
  renamed subtree.
  */
module MemfsSibling {
  import opened MemfsTree
  import opened MemfsRename

  // The textual form of a path.

  function Parts(p: Path): string {
    if p == [] then "" else "/" + p[0] + Parts(p[1..])
  }

  function Render(p: Path): string {
    if p == [] then "/" else Parts(p)
  }

  ghost predicate Clean(p: Path) {
    forall i :: 0 <= i < |p| ==> p[i] != "" && '/' !in p[i]
  }

  // The first character where two texts differ.
  lemma Differ(s: string, t: string, i: nat)
    ensures i < |s| && (i < |t| ==> s[i] != t[i]) ==> !(s <= t)
  {
  }

  lemma PartsPrefix(x: string, f: Path, y: string, p: Path)
    requires '/' !in x && '/' !in y
    ensures "/" + x + Parts(f) <= "/" + y + Parts(p)
            <==> if f == [] then x <= y else x == y && Parts(f) <= Parts(p)
  {
    var s, t := "/" + x + Parts(f), "/" + y + Parts(p);
    if |x| > |y| {
      assert s[1 + |y|] == x[|y|];
      assert p != [] ==> t[1 + |y|] == '/';
      Differ(s, t, 1 + |y|);
    } else if x != y[..|x|] {
      var i :| 0 <= i < |x| && x[i] != y[i];
      assert s[1 + i] == x[i] && t[1 + i] == y[i];
      Differ(s, t, 1 + i);
    } else if f == [] {
      assert s == t[..|s|];
    } else if |x| < |y| {
      assert s[1 + |x|] == '/' && t[1 + |x|] == y[|x|];
      Differ(s, t, 1 + |x|);
    } else {
      assert s[1 + |x|..] == Parts(f) && t[1 + |x|..] == Parts(p);
      SamePrefix(s, t, 1 + |x|);
    }
  }

  lemma SamePrefix(s: string, t: string, n: nat)
    requires n <= |s| && n <= |t| && s[..n] == t[..n]
    ensures s <= t <==> s[n..] <= t[n..]
  {
    assert s == s[..n] + s[n..] && t == t[..n] + t[n..];
    if s[n..] <= t[n..] {
      assert t[..|s|] == s;
    }
    if s <= t {
      assert t[n..][..|s| - n] == s[n..];
    }
  }

  // TextPrefix is strings.HasPrefix on the textual forms.
  lemma {:induction false} TextPrefixIsText(from: Path, p: Path)
    requires Clean(from) && Clean(p)
    ensures Render(from) <= Render(p) <==> TextPrefix(from, p)
  {
    if from == [] {
      assert Render(p)[0] == '/';
    } else if p == [] {
      assert |Render(from)| > 1;
    } else {
      PartsPrefix(from[0], from[1..], p[0], p[1..]);
      if |from| > 1 {
        PartsOf(from[1..]);
        TextPrefixIsText(from[1..], p[1..]);
        TextPrefixTail(from, p);
      }
    }
  }

  lemma PartsOf(f: Path)
    ensures f != [] && Clean(f) ==> Parts(f) == Render(f) && |Parts(f)| > 1
    ensures f != [] && Clean(f) ==> forall p: Path :: Parts(f) <= Parts(p) <==> Render(f) <= Render(p)
  {
  }

  lemma TextPrefixTail(from: Path, p: Path)
    requires |from| > 1 && p != []
    ensures TextPrefix(from, p) <==> from[0] == p[0] && TextPrefix(from[1..], p[1..])
  {
    if |from| <= |p| {
      var n := |from| - 1;
      assert p[..n] == [p[0]] + p[1..][..n - 1];
      assert Dir(from) == [from[0]] + Dir(from[1..]);
      assert Base(from) == Base(from[1..]) && p[n] == p[1..][n - 1];
      assert p[..n] == Dir(from) <==> p[0] == from[0] && p[1..][..n - 1] == Dir(from[1..]) by {
        assert p[..n][0] == p[0] && p[..n][1..] == p[1..][..n - 1];
        assert Dir(from)[0] == from[0] && Dir(from)[1..] == Dir(from[1..]);
      }
    }
  }

  // A path outside the subtree with the old name as a textual prefix.
  ghost predicate TextSibling(a: FS, from: Path, p: Path) {
    p in a.files && TextPrefix(from, p) && !(from <= p)
  }

  // Where an object that was moved off p for its name alone may be found: never at p again.
  ghost predicate Escaped(from: Path, to: Path, p: Path, x: Path) {
    if |to| > |from| then |x| > |p|
    else if |to| < |from| then |x| < |p|
    else 0 < |from| <= |x| + 1 && x[..|from| - 1] == Dir(to) && Dir(to) != Dir(from)
  }

  ghost predicate GoneFrom(s: FS, from: Path, to: Path, p: Path, id: Id, x: Path) {
    x in s.files && s.files[x] == id ==> Escaped(from, to, p, x)
  }

  ghost predicate NoReturn(s: FS, from: Path, to: Path, p: Path, id: Id) {
    id < s.next && forall x :: GoneFrom(s, from, to, p, id, x)
  }

  lemma TargetLength(from: Path, to: Path, q: Path)
    requires from != [] && to != [] && TextPrefix(from, q)
    ensures |Target(from, to, q)| == |q| + |to| - |from|
    ensures |Target(from, to, q)| >= |to| - 1 && Target(from, to, q)[..|to| - 1] == Dir(to)
    ensures !(from <= q) && Dir(from) == Dir(to) ==> Target(from, to, q) == q
  {
    if from <= q {
      assert Target(from, to, q)[..|to| - 1] == to[..|to| - 1];
    } else if Dir(from) == Dir(to) {
      assert q == q[..|from| - 1] + q[|from| - 1..];
    }
  }

  // An object on its way is moved further on its way, or not at all.
  lemma EscapesFurther(from: Path, to: Path, p: Path, q: Path)
    requires from != [] && to != [] && TextPrefix(from, p) && TextPrefix(from, q)
    requires Escaped(from, to, p, q)
    ensures Escaped(from, to, p, Target(from, to, q))
  {
    TargetLength(from, to, q);
  }

  lemma MoveGrows(s: FS, q: Path, r: Path, x: Path)
    requires q in s.files
    ensures s.next <= Move(s, q, r).next
    ensures x in Move(s, q, r).files ==>
              var id := Move(s, q, r).files[x];
              x != q && (id >= s.next || if x == r then id == s.files[q] else x in s.files && id == s.files[x])
  {
    CreateGrows(Relink(s, q, r), r, s.files[q]);
    assert GrowsAt(Relink(s, q, r), Made(s, q, r), r, x);
  }

  lemma NoReturnStep(s: FS, from: Path, to: Path, p: Path, id: Id, q: Path)
    requires from != [] && to != [] && TextPrefix(from, p) && TextPrefix(from, q)
    requires NoReturn(s, from, to, p, id)
    ensures NoReturn(Move(s, q, Target(from, to, q)), from, to, p, id)
  {
    if q in s.files {
      var r := Target(from, to, q);
      var t := Move(s, q, r);
      MoveGrows(s, q, r, q);
      forall x
        ensures GoneFrom(t, from, to, p, id, x)
      {
        MoveGrows(s, q, r, x);
        assert GoneFrom(s, from, to, p, id, x) && GoneFrom(s, from, to, p, id, q);
        if Escaped(from, to, p, q) {
          EscapesFurther(from, to, p, q);
        }
      }
    }
  }

  // The move of a textual sibling takes it from its place.
  lemma SiblingMoves(s: FS, from: Path, to: Path, p: Path)
    requires from != [] && to != [] && TextPrefix(from, p) && !(from <= p)
    requires p in s.files && s.files[p] < s.next
    requires forall x :: x in s.files && s.files[x] == s.files[p] ==> x == p
    ensures NoReturn(Move(s, p, Target(from, to, p)), from, to, p, s.files[p])
  {
    var r := Target(from, to, p);
    var t := Move(s, p, r);
    TargetLength(from, to, p);
    MoveGrows(s, p, r, p);
    forall x
      ensures GoneFrom(t, from, to, p, s.files[p], x)
    {
      MoveGrows(s, p, r, x);
    }
  }

  // After the moves ds, the object of the sibling p is not at p.
  ghost predicate LostIn(a: FS, from: Path, to: Path, ds: seq<Path>, p: Path) {
    p in a.files && NoReturn(Play(a, from, to, ds).fs, from, to, p, a.files[p])
  }

  lemma StillLost(a: FS, from: Path, to: Path, ds: seq<Path>, q: Path, p: Path)
    requires from != [] && to != [] && TextPrefix(from, p) && TextPrefix(from, q)
    requires LostIn(a, from, to, ds, p)
    ensures LostIn(a, from, to, ds + [q], p)
  {
    assert (ds + [q])[..|ds|] == ds;
    NoReturnStep(Play(a, from, to, ds).fs, from, to, p, a.files[p], q);
  }

  ghost predicate AllText(from: Path, ds: seq<Path>) {
    forall q :: q in ds ==> TextPrefix(from, q)
  }

  lemma NextStillLost(a: FS, from: Path, to: Path, ds: seq<Path>, n: nat, p: Path)
    requires from != [] && to != [] && TextPrefix(from, p) && AllText(from, ds)
    requires n < |ds| && LostIn(a, from, to, ds[..n], p)
    ensures LostIn(a, from, to, ds[..n + 1], p)
  {
    assert ds[n] in ds;
    StillLost(a, from, to, ds[..n], ds[n], p);
    assert ds[..n + 1] == ds[..n] + [ds[n]];
  }

  lemma {:induction false} NeverReturns(a: FS, from: Path, to: Path, ds: seq<Path>, k: nat, n: nat, p: Path)
    requires from != [] && to != [] && TextPrefix(from, p) && AllText(from, ds)
    requires k <= n <= |ds| && LostIn(a, from, to, ds[..k], p)
    ensures LostIn(a, from, to, ds[..n], p)
  {
    if k < n {
      NeverReturns(a, from, to, ds, k, n - 1, p);
      NextStillLost(a, from, to, ds, n - 1, p);
    }
  }

  // The first textual sibling in a list of sources.
  lemma {:induction false} FirstSibling(from: Path, ds: seq<Path>, p: Path) returns (i: nat)
    requires p in ds && !(from <= p)
    ensures i < |ds| && !(from <= ds[i]) && forall j :: 0 <= j < i ==> from <= ds[j]
  {
    var before := ds[..|ds| - 1];
    if q :| q in before && !(from <= q) {
      i := FirstSibling(from, before, q);
    } else {
      i := |ds| - 1;
      assert forall j :: 0 <= j < i ==> ds[j] == before[j] && before[j] in before;
    }
  }

  // Before its own move a textual sibling is alone at its place.
  lemma SiblingAlone(a: FS, s: FS, from: Path, to: Path, done: set<Path>, p: Path)
    requires CanRename(a, from, to) && Moving(a, s, from, to, done) && TextSibling(a, from, p)
    ensures p in s.files && s.files[p] == a.files[p] && s.files[p] < s.next
    ensures forall x :: x in s.files && s.files[x] == s.files[p] ==> x == p
  {
    assert p !in done;
    assert Fits(a, s, from, to, done, p);
    forall x | x in s.files && s.files[x] == s.files[p]
      ensures x == p
    {
      assert Fits(a, s, from, to, done, x);
    }
  }

  lemma SubtreeMovesBefore(a: FS, from: Path, order: seq<Path>, i: nat)
    requires from in a.files && Enumerates(order, a) && i < |Sources(from, order)|
    requires forall j :: 0 <= j < i ==> from <= Sources(from, order)[j]
    ensures MoveOrder(a, from, Sources(from, order)[..i])
  {
    OthersDistinct(from, order);
    var ds := Sources(from, order);
    forall p | p in ds[..i]
      ensures Source(a, from, p)
    {
      assert p in ds;
    }
  }

  lemma SiblingMoved(a: FS, from: Path, to: Path, before: seq<Path>, q: Path)
    requires CanRename(a, from, to) && PlayedWell(a, from, to, before) && TextSibling(a, from, q)
    ensures LostIn(a, from, to, before + [q], q)
  {
    var s := Play(a, from, to, before).fs;
    SiblingAlone(a, s, from, to, Moved(before), q);
    assert to != [];
    SiblingMoves(s, from, to, q);
    assert (before + [q])[..|before|] == before;
  }

  lemma SiblingLeaves(a: FS, from: Path, to: Path, before: seq<Path>, q: Path)
    requires CanRename(a, from, to) && MoveOrder(a, from, before) && TextSibling(a, from, q)
    ensures LostIn(a, from, to, before + [q], q)
  {
    PlayKeeps(a, from, to, before);
    SiblingMoved(a, from, to, before, q);
  }

  lemma SiblingLostFrom(a: FS, from: Path, to: Path, ds: seq<Path>, i: nat, p: Path)
    requires from != [] && to != [] && TextPrefix(from, p) && AllText(from, ds)
    requires i < |ds| && LostIn(a, from, to, ds[..i + 1], p)
    ensures LostIn(a, from, to, ds, p)
  {
    NeverReturns(a, from, to, ds, i + 1, |ds|, p);
    assert ds[..|ds|] == ds;
  }

  lemma SiblingLeavesAt(a: FS, from: Path, to: Path, ds: seq<Path>, i: nat, q: Path)
    requires CanRename(a, from, to) && TextSibling(a, from, q)
    requires i < |ds| && ds[i] == q && MoveOrder(a, from, ds[..i])
    ensures LostIn(a, from, to, ds[..i + 1], q)
  {
    SiblingLeaves(a, from, to, ds[..i], q);
    assert ds[..i + 1] == ds[..i] + [q];
  }

  lemma SiblingLostAt(a: FS, from: Path, to: Path, ds: seq<Path>, i: nat, q: Path)
    requires CanRename(a, from, to) && TextSibling(a, from, q) && AllText(from, ds)
    requires i < |ds| && ds[i] == q && MoveOrder(a, from, ds[..i])
    ensures LostIn(a, from, to, ds, q)
  {
    SiblingLeavesAt(a, from, to, ds, i, q);
    SiblingLostFrom(a, from, to, ds, i, q);
  }

  lemma FirstSiblingMoved(a: FS, from: Path, order: seq<Path>, p: Path) returns (i: nat)
    requires from in a.files && Enumerates(order, a) && TextSibling(a, from, p)
    ensures var ds := Sources(from, order);
            i < |ds| && TextSibling(a, from, ds[i]) && MoveOrder(a, from, ds[..i]) && AllText(from, ds)
  {
    var ds := Sources(from, order);
    assert p in ds;
    i := FirstSibling(from, ds, p);
    assert ds[i] in ds;
    SubtreeMovesBefore(a, from, order, i);
  }

  lemma SiblingLost(a: FS, from: Path, to: Path, order: seq<Path>, p: Path) returns (q: Path)
    requires CanRename(a, from, to) && Enumerates(order, a) && TextSibling(a, from, p)
    ensures TextSibling(a, from, q) && LostIn(a, from, to, Sources(from, order), q)
  {
    var i := FirstSiblingMoved(a, from, order, p);
    q := Sources(from, order)[i];
    SiblingLostAt(a, from, to, Sources(from, order), i, q);
  }

  // Renaming does what it is for exactly when no path outside the subtree has the old name as a
  // textual prefix, whatever the iteration order: "/ab" is not safe from renaming "/a".
  lemma RenameMovesSubtreeIff(a: FS, from: Path, to: Path, order: seq<Path>)
    requires CanRename(a, from, to) && Enumerates(order, a)
    ensures !Rename(a, from, to, order).failed && Renamed(a, Rename(a, from, to, order).fs, from, to)
            <==> NoTextSibling(a, from)
  {
    if NoTextSibling(a, from) {
      RenameMovesSubtree(a, from, to, order);
    } else {
      var p :| p in a.files && TextPrefix(from, p) && !(from <= p);
      var q := SiblingLost(a, from, to, order, p);
      var t := Rename(a, from, to, order).fs;
      assert GoneFrom(t, from, to, q, a.files[q], q);
      assert !RenamedAt(a, t, from, to, q);
    }
  }

  // "/a" is an empty directory and "/ab" a file beside it.
  function TwoSiblings(): FS {
    FS(map[[] := 0, ["a"] := 1, ["ab"] := 2],
       map[[] := Entries(map["a" := 1, "ab" := 2])],
       map[0 := Node("/", true), 1 := Node("a", true), 2 := Node("ab", false)],
       3)
  }

  lemma TwoSiblingsKids(d: Path, n: string)
    requires n in Kids(TwoSiblings(), d)
    ensures d == [] && n in {"a", "ab"}
    ensures d + [n] in TwoSiblings().files && Kids(TwoSiblings(), d)[n] == TwoSiblings().files[d + [n]]
  {
    assert d == [];
    assert [] + [n] == [n];
  }

  lemma TwoSiblingsListed(p: Path)
    ensures p in TwoSiblings().files ==> HasParent(TwoSiblings(), p) && Listed(TwoSiblings(), p)
  {
    assert p in TwoSiblings().files ==> p in {[], ["a"], ["ab"]};
    assert Dir(["a"]) == [] && Dir(["ab"]) == [];
  }

  lemma TwoSiblingsNamed()
    ensures Named(TwoSiblings())
  {
  }

  lemma SoundFrom(a: FS)
    ensures Named(a) && ListsOnlyStored(a) && (forall p :: p in a.files ==> HasParent(a, p) && Listed(a, p)) ==>
            Sound(a)
  {
  }

  lemma TwoSiblingsSound()
    ensures Sound(TwoSiblings())
  {
    TwoSiblingsNamed();
    forall d, n | n in Kids(TwoSiblings(), d)
      ensures d + [n] in TwoSiblings().files && Kids(TwoSiblings(), d)[n] == TwoSiblings().files[d + [n]]
    {
      TwoSiblingsKids(d, n);
    }
    forall p | p in TwoSiblings().files
      ensures HasParent(TwoSiblings(), p) && Listed(TwoSiblings(), p)
    {
      TwoSiblingsListed(p);
    }
    SoundFrom(TwoSiblings());
  }

  // Renaming "/a" to "/b" takes the file from "/ab".
  lemma SiblingExample(order: seq<Path>)
    requires Enumerates(order, TwoSiblings())
    ensures var t := Rename(TwoSiblings(), ["a"], ["b"], order).fs;
            !(["ab"] in t.files && t.files[["ab"]] == TwoSiblings().files[["ab"]])
  {
    var a := TwoSiblings();
    TwoSiblingsSound();
    assert "a" <= "ab" && "a" != "ab";
    var from, to, p := ["a"], ["b"], ["ab"];
    assert from[0] == "a" && to[0] == "b" && p[0] == "ab" && "b"[0] == 'b' && "a"[0] == 'a';
    assert TextSibling(a, from, p);
    forall q | q in a.files
      ensures !(to <= q) && (q < to ==> IsDir(a, a.files[q])) && (TextSibling(a, from, q) ==> q == p)
    {
      assert q in {[], ["a"], ["ab"]};
    }
    var q := SiblingLost(a, from, to, order, p);
    assert GoneFrom(Rename(a, from, to, order).fs, from, to, q, a.files[q], q);
  }
}
