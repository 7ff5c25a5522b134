/**
  Making a temporary directory in the in-memory filesystem, which does not
  report that a directory exists already.
  */
module MemfsTempDir {
  import opened MemfsTree
  import opened MemfsNil
  import opened MemfsStorage
  import opened TempSuffix

  // What MkdirAll makes of storage.new's answer: only a file in the way is an error, and not one
  // that says that the path exists.
  function MkdirAnswer(r: NewResult): Mkdir {
    if r.FileExists? then OtherError else Made
  }

  // The first name tried decides: whether there is a directory of that name or not, it is the one
  // returned. It is new exactly if the path was not stored.
  method MakeTempDir(g: SuffixSource, s: Storage, dir: Path, prefix: string, seed: nat -> Word)
    returns (p: Path, err: Mkdir)
    requires g.Valid() && s.Valid()
    requires forall suffix: string :: NewSafe(s.Tree(), dir + [prefix + suffix], true)
    modifies g, s
    ensures g.Valid() && s.Valid()
    ensures g.rand == Advance(if old(g.rand) == 0 then seed(0) else old(g.rand))
    ensures p == dir + [prefix + Suffix(g.rand)]
    ensures err == if p in old(s.files) && !IsDir(old(s.Tree()), old(s.files)[p]) then OtherError else Made
    ensures s.Tree() == NewFile(old(s.Tree()), p, true)
    ensures err == Made ==> p in s.files && IsDir(s.Tree(), s.files[p])
    ensures err == Made && p in old(s.files) ==> s.Tree() == old(s.Tree())
  {
    p, err := dir, AlreadyExists;
    var conflicts := 0;
    ghost var t := s.Tree();
    for i := 0 to 10000
      invariant i == 0 && conflicts == 0 && err == AlreadyExists
      invariant g.Valid() && s.Valid() && g.rand == old(g.rand) && s.Tree() == t
    {
      var suffix := g.NextSuffix(seed(0));
      p := dir + [prefix + suffix];
      NewGrows(t, p, true);
      var r := s.New(p, true);
      err := MkdirAnswer(r);
      if err == AlreadyExists {
        conflicts := conflicts + 1;
        continue;
      }
      break;
    }
  }
}
