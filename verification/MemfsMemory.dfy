/**
  The filesystem: files opened by path.
  */
module MemfsMemory {
  import opened MemfsTree
  import opened MemfsNil
  import opened MemfsSibling
  import opened MemfsContent
  import opened MemfsFile
  import opened MemfsStorage

  // Files opened by path.

  datatype OpenResult = Opened(file: File) | NoSuchFile | IsADirectory

  class Memory {
    const storage: Storage
    // The contents of the objects that are not directories.
    var contents: map<Id, Content>

    ghost predicate Valid()
      reads this, storage, set i | i in contents :: contents[i]
    {
      && storage.Valid() && IdsKnown(storage.Tree())
      && (forall p :: p in storage.files && !IsDir(storage.Tree(), storage.files[p]) ==> storage.files[p] in contents)
      && (forall i :: i in contents ==> i < storage.next && contents[i].Valid())
      && (forall i, j :: i in contents && j in contents && i != j ==>
            contents[i] != contents[j] && contents[i].buf != contents[j].buf)
    }

    // The stored file at p.
    ghost predicate IsFile(p: Path)
      reads this, storage
    {
      p in storage.files && !IsDir(storage.Tree(), storage.files[p]) && storage.files[p] in contents
    }

    // The length of the file at p, if there is one.
    ghost function LengthAt(p: Path): nat
      reads this, storage, set i | i in contents :: contents[i]
    {
      if p in storage.files && storage.files[p] in contents then contents[storage.files[p]].len else 0
    }

    constructor ()
      ensures Valid() && fresh(storage) && storage.Tree() == EMPTY_FS && contents == map[]
    {
      storage := new Storage();
      contents := map[];
    }

    method OpenFile(p: Path, flag: Flag) returns (r: OpenResult)
      requires Valid() && (p !in storage.files ==> NewSafe(storage.Tree(), p, false))
      modifies this, storage, set i | i in contents :: contents[i]
      ensures Valid() && ContentsKept(p)
      ensures storage.Tree() == if p !in old(storage.files) && flag.create then NewFile(old(storage.Tree()), p, false)
                                else old(storage.Tree())
      ensures r == NoSuchFile <==> p !in old(storage.files) && !flag.create
      ensures r == IsADirectory <==> p in old(storage.files) && IsDir(old(storage.Tree()), old(storage.files)[p])
      ensures r.Opened? ==> fresh(r.file) && !r.file.isClosed && r.file.flag == flag && r.file.name == Render(p)
      ensures r.Opened? ==> IsFile(p) && r.file.content == contents[storage.files[p]]
      ensures r.Opened? && (p !in old(storage.files) || flag.trunc) ==>
                r.file.content.Bytes() == [] && fresh(r.file.content.buf)
      ensures r.Opened? && p in old(storage.files) && !flag.trunc ==>
                p in old(storage.files) && old(storage.files)[p] in old(contents)
                  && unchanged(old(contents)[old(storage.files)[p]])
      ensures r.Opened? ==> r.file.position == if flag.append then old(LengthAt(p)) else 0
    {
      if p !in storage.files {
        if !flag.create {
          return NoSuchFile;
        }
        MakeFile(p);
      }
      if storage.nodes[storage.files[p]].dir {
        return IsADirectory;
      }
      var f := Handle(p, flag);
      r := Opened(f);
    }

    // Contents stay with their objects, and only those of p are touched.
    twostate predicate ContentsKept(p: Path)
      reads this, storage, set i | i in contents :: contents[i]
    {
      && (forall i :: i in old(contents) ==> i in contents && contents[i] == old(contents)[i])
      && (forall i :: i in contents && i !in old(contents) ==> fresh(contents[i]))
      && (forall i :: i in old(contents) && !(p in old(storage.files) && i == old(storage.files)[p]) ==>
        unchanged(old(contents)[i]))
    }

    method MakeFile(p: Path)
      requires Valid() && NewSafe(storage.Tree(), p, false) && p !in storage.files
      modifies this, storage
      ensures Valid() && IsFile(p) && storage.Tree() == NewFile(old(storage.Tree()), p, false)
      ensures storage.files[p] !in old(contents) && fresh(contents[storage.files[p]])
      ensures contents == old(contents)[storage.files[p] := contents[storage.files[p]]]
      ensures contents[storage.files[p]].Bytes() == [] && fresh(contents[storage.files[p]].buf)
    {
      var id := MakeObject(p);
      var c := new Content();
      contents := contents[id := c];
    }

    // The object of a new file; all other files keep theirs.
    method MakeObject(p: Path) returns (id: Id)
      requires storage.Valid() && IdsKnown(storage.Tree()) && NewSafe(storage.Tree(), p, false) && p !in storage.files
      modifies storage
      ensures storage.Valid() && IdsKnown(storage.Tree()) && storage.Tree() == NewFile(old(storage.Tree()), p, false)
      ensures p in storage.files && storage.files[p] == id == old(storage.next) < storage.next
      ensures !IsDir(storage.Tree(), id)
      ensures forall q :: q in storage.files && q != p && !IsDir(storage.Tree(), storage.files[q]) ==>
                q in old(storage.files) && storage.files[q] == old(storage.files[q])
                  && !IsDir(old(storage.Tree()), storage.files[q])
    {
      MadeFiles(storage.Tree(), p);
      id := storage.next;
      var made := storage.New(p, false);
    }

    method Handle(p: Path, flag: Flag) returns (f: File)
      requires Valid() && IsFile(p)
      modifies contents[storage.files[p]]
      ensures Valid() && fresh(f) && !f.isClosed && f.flag == flag && f.name == Render(p)
      ensures f.content == contents[storage.files[p]]
      ensures f.position == if flag.append then |old(contents[storage.files[p]].Bytes())| else 0
      ensures f.content.Bytes() == if flag.trunc then [] else old(contents[storage.files[p]].Bytes())
      ensures if flag.trunc then fresh(f.content.buf) else unchanged(contents[storage.files[p]])
    {
      var id := storage.files[p];
      // A handle takes over nothing of the stored file object but its contents.
      var stored := new File(storage.nodes[id].name, contents[id], O_RDONLY, 0);
      f := stored.Duplicate(Render(p), flag);
    }
  }

  method WriteFile(fs: Memory, p: Path, w: File, data: seq<Byte>, spare: nat)
    requires fs.Valid() && fs.IsFile(p) && w.content == fs.contents[fs.storage.files[p]]
    requires !w.isClosed && Writable(w.flag) && w.position == 0 && w.content.Bytes() == []
    modifies w`position, w.content, w.content.buf
    ensures fs.Valid() && w.content.Bytes() == data
  {
    var e := WriteAll(w, data, spare);
    assert w.content.Bytes() == data;
  }

  // Writing a file by path, as chart files are: through a handle from Create.
  method Save(fs: Memory, p: Path, data: seq<Byte>, spare: nat)
    requires fs.Valid() && (p in fs.storage.files ==> fs.IsFile(p))
    requires p !in fs.storage.files ==> NewSafe(fs.storage.Tree(), p, false)
    modifies fs, fs.storage, set i | i in fs.contents :: fs.contents[i]
    ensures fs.Valid() && fs.IsFile(p) && fs.contents[fs.storage.files[p]].Bytes() == data
    ensures fs.storage.Tree() == NewFile(old(fs.storage.Tree()), p, false)
    ensures forall i :: i in fs.contents ==>
            (i in old(fs.contents) && fs.contents[i] == old(fs.contents)[i]) || fresh(fs.contents[i])
  {
    var r := fs.OpenFile(p, O_CREATE);
    WriteFile(fs, p, r.file, data, spare);
  }

  // Reading it through a handle from Open.
  method Load(fs: Memory, p: Path, size: nat -> nat) returns (out: seq<Byte>, err: Error)
    requires fs.Valid() && fs.IsFile(p)
    requires forall i :: size(i) > 0
    modifies fs, fs.storage, set i | i in fs.contents :: fs.contents[i]
    ensures err == EOF && out == old(fs.contents[fs.storage.files[p]].Bytes())
    ensures fs.Valid() && fs.storage.Tree() == old(fs.storage.Tree())
  {
    var r := fs.OpenFile(p, O_RDONLY);
    out, err := ReadAll(r.file, size);
  }

  method SaveAndLoad(fs: Memory, p: Path, data: seq<Byte>, size: nat -> nat, spare: nat)
    returns (out: seq<Byte>, err: Error)
    requires fs.Valid() && (p in fs.storage.files ==> fs.IsFile(p))
    requires p !in fs.storage.files ==> NewSafe(fs.storage.Tree(), p, false)
    requires forall i :: size(i) > 0
    modifies fs, fs.storage, set i | i in fs.contents :: fs.contents[i]
    ensures out == data && err == EOF
    ensures fs.Valid() && fs.storage.Tree() == NewFile(old(fs.storage.Tree()), p, false)
  {
    Save(fs, p, data, spare);
    out, err := Load(fs, p, size);
  }

  // Creating a file makes one object that is not a directory.
  lemma MadeFiles(s: FS, p: Path)
    requires p !in s.files && IdsKnown(s)
    ensures var t := NewFile(s, p, false);
            && p in t.files && t.files[p] == s.next && !IsDir(t, s.next) && s.next < t.next && IdsKnown(t)
            && forall q :: q in t.files && q != p && !IsDir(t, t.files[q]) ==>
                 q in s.files && t.files[q] == s.files[q] && !IsDir(s, s.files[q])
  {
    NewGrows(s, p, false);
    var t := NewFile(s, p, false);
    assert GrowsAt(s, t, p, p);
    forall q | q in t.files
      ensures t.files[q] < t.next && t.files[q] in t.nodes
      ensures q != p && !IsDir(t, t.files[q]) ==> q in s.files && t.files[q] == s.files[q] && !IsDir(s, s.files[q])
    {
      assert GrowsAt(s, t, p, q);
      if q in s.files {
        assert SameNode(s, t, s.files[q]);
      }
    }
  }

  predicate IdsKnown(s: FS) {
    forall q :: q in s.files ==> s.files[q] < s.next && s.files[q] in s.nodes
  }
}
