/**
  File handles of the in-memory filesystem. Every handle opened on a path
  shares the contents of that path; a handle has its own position and flags.
  */
module MemfsFile {
  import opened MemfsContent

  // The bits of the open flag that the handles look at; `rest` stands for all others.
  datatype Flag = Flag(wronly: bool, rdwr: bool, create: bool, append: bool, trunc: bool, rest: bool)

  const O_RDONLY := Flag(false, false, false, false, false, false)
  // the flag that Create passes
  const O_CREATE := Flag(false, true, true, false, true, false)

  predicate IsReadOnly(f: Flag) {
    f == O_RDONLY
  }

  predicate Readable(f: Flag) {
    f.rdwr || IsReadOnly(f)
  }

  predicate Writable(f: Flag) {
    f.rdwr || f.wronly
  }

  datatype Error = Nil | EOF | ErrClosed | NotSupported

  datatype Whence = SeekStart | SeekCurrent | SeekEnd

  class File {
    const name: string
    const flag: Flag
    const content: Content
    var position: int
    var isClosed: bool

    // A handle that was sought to before the start cannot be read or written: Go panics.
    ghost predicate CanRead()
      reads this
    {
      !isClosed && Readable(flag) ==> position >= 0
    }

    ghost predicate CanWrite()
      reads this
    {
      !isClosed && Writable(flag) ==> position >= 0
    }

    constructor (name: string, content: Content, flag: Flag, position: nat)
      ensures this.name == name && this.content == content && this.flag == flag
      ensures this.position == position && !isClosed
    {
      this.name, this.content, this.flag := name, content, flag;
      this.position, isClosed := position, false;
    }

    method Read(b: array<Byte>) returns (n: nat, err: Error)
      requires content.Valid() && b != content.buf && CanRead()
      modifies this`position, b
      ensures err == ErrClosed <==> isClosed
      ensures err == NotSupported <==> !isClosed && !flag.rdwr && flag != Flag(false, false, false, false, false, false)
      ensures position == old(position) + n && n <= b.Length
      ensures err in {ErrClosed, NotSupported} ==> n == 0 && b[..] == old(b[..])
      ensures err == EOF <==>
              !isClosed && Readable(flag) && n == 0 && (b.Length > 0 || old(position) >= |content.Bytes()|)
      ensures err in {Nil, EOF} && n > 0 ==>
                position <= |content.Bytes()| && b[..n] == content.Bytes()[old(position)..position]
      ensures err in {Nil, EOF} && n < b.Length ==> position >= |content.Bytes()|
      ensures b[n..] == old(b[n..])
    {
      if isClosed {
        return 0, ErrClosed;
      }
      if !Readable(flag) {
        return 0, NotSupported;
      }
      var eof;
      n, eof := content.ReadAt(b, position);
      position := position + n;
      err := if eof && n == 0 then EOF else Nil;
    }

    method Write(p: seq<Byte>, spare: nat) returns (n: nat, err: Error)
      requires content.Valid() && CanWrite()
      modifies this`position, content, content.buf
      ensures content.Valid() && (content.buf == old(content.buf) || fresh(content.buf))
      ensures err == if isClosed then ErrClosed else if flag.rdwr || flag.wronly then Nil else NotSupported
      ensures err != Nil ==> n == 0 && content.Bytes() == old(content.Bytes())
      ensures err == Nil ==> n == |p| && content.Bytes() == Overwrite(old(content.Bytes()), old(position), p)
      ensures position == old(position) + n
    {
      if isClosed {
        return 0, ErrClosed;
      }
      if !Writable(flag) {
        return 0, NotSupported;
      }
      n := content.WriteAt(p, position, spare);
      position := position + n;
      err := Nil;
    }

    method Seek(offset: int, whence: Whence) returns (pos: int, err: Error)
      requires content.Valid()
      modifies this`position
      ensures isClosed ==> pos == 0 && err == ErrClosed && position == old(position)
      ensures !isClosed ==> pos == position && err == Nil
      ensures !isClosed ==> position - offset == match whence
                                                 case SeekStart => 0
                                                 case SeekCurrent => old(position)
                                                 case SeekEnd => |content.Bytes()|
    {
      if isClosed {
        return 0, ErrClosed;
      }
      match whence {
        case SeekCurrent => position := position + offset;
        case SeekStart => position := offset;
        case SeekEnd => position := content.len + offset;
      }
      return position, Nil;
    }

    method Close() returns (err: Error)
      modifies this`isClosed
      ensures isClosed && err == if old(isClosed) then ErrClosed else Nil
    {
      if isClosed {
        return ErrClosed;
      }
      isClosed := true;
      err := Nil;
    }

    method Truncate(size: nat, spare: nat) returns (err: Error)
      requires content.Valid()
      modifies content, content.buf
      ensures content.Valid() && (content.buf == old(content.buf) || fresh(content.buf))
      ensures err == Nil && content.Bytes() == Resize(old(content.Bytes()), size)
    {
      content.TruncateTo(size, spare);
      err := Nil;
    }

    // Opening with both O_APPEND and O_TRUNC leaves the handle at the old end of the emptied file.
    method Duplicate(filename: string, flag: Flag) returns (f: File)
      requires content.Valid()
      modifies content
      ensures fresh(f) && f.name == filename && f.content == content && f.flag == flag && !f.isClosed
      ensures content.Valid() && (content.buf == old(content.buf) || fresh(content.buf))
      ensures f.position == if flag.append then |old(content.Bytes())| else 0
      ensures content.Bytes() == if flag.trunc then [] else old(content.Bytes())
      ensures if flag.trunc then fresh(content.buf) else unchanged(content)
    {
      f := new File(filename, content, flag, if flag.append then content.len else 0);
      if flag.trunc {
        content.Empty();
      }
    }
  }

  // The loop that writes one fetched chart file.
  method WriteAll(f: File, data: seq<Byte>, spare: nat) returns (err: Error)
    requires f.content.Valid() && f.CanWrite()
    modifies f`position, f.content, f.content.buf
    ensures f.content.Valid() && (f.content.buf == old(f.content.buf) || fresh(f.content.buf))
    ensures err == if f.isClosed then ErrClosed else if !Writable(f.flag) then NotSupported else Nil
    ensures err == Nil ==> f.content.Bytes() == Overwrite(old(f.content.Bytes()), old(f.position), data)
    ensures err == Nil ==> f.position == old(f.position) + |data|
    ensures err != Nil ==> f.content.Bytes() == old(f.content.Bytes()) && f.position == old(f.position)
  {
    var n, done := 0, false;
    while !done
      invariant f.content.Valid() && (f.content.buf == old(f.content.buf) || fresh(f.content.buf))
      invariant n == if done then |data| else 0
      invariant f.position == old(f.position) + n && f.CanWrite()
      invariant !done ==> f.content.Bytes() == old(f.content.Bytes())
      invariant done ==> !f.isClosed && Writable(f.flag) && old(f.position) >= 0
      invariant done ==> f.content.Bytes() == Overwrite(old(f.content.Bytes()), old(f.position), data)
      decreases if done then 0 else 1
    {
      var i, e := f.Write(data[n..], spare);
      if e != Nil {
        return e;
      }
      n := n + i;
      done := n == |data|;
    }
    err := Nil;
  }

  // Reads with buffers of any positive sizes until a read reports an error.
  method ReadAll(f: File, size: nat -> nat) returns (out: seq<Byte>, err: Error)
    requires f.content.Valid() && f.CanRead()
    requires forall i :: size(i) > 0
    modifies f`position
    ensures err == if f.isClosed then ErrClosed else if !Readable(f.flag) then NotSupported else EOF
    ensures err == EOF ==>
              out == if 0 <= old(f.position) <= |f.content.Bytes()| then f.content.Bytes()[old(f.position)..] else []
    ensures err != EOF ==> out == []
  {
    out, err := [], Nil;
    ghost var start := f.position;
    var calls := 0;
    while err == Nil
      invariant f.position == start + |out| && f.CanRead()
      invariant |out| > 0 ==>
                  0 <= start && f.position <= |f.content.Bytes()| && out == f.content.Bytes()[start..f.position]
      invariant err == ErrClosed <==> f.isClosed && calls > 0
      invariant err == NotSupported <==> !f.isClosed && !Readable(f.flag) && calls > 0
      invariant err == EOF ==> f.position >= |f.content.Bytes()|
      invariant err == EOF || |out| > 0 ==> !f.isClosed && Readable(f.flag)
      decreases if err == Nil then 1 else 0, |f.content.Bytes()| - f.position
    {
      var b := new Byte[size(calls)];
      var n;
      n, err := f.Read(b);
      calls := calls + 1;
      out := out + b[..n];
    }
  }

  // What is written through one handle is read back through another on the same contents.
  method WriteThenRead(w: File, r: File, data: seq<Byte>, size: nat -> nat, spare: nat)
    returns (out: seq<Byte>, err: Error)
    requires w.content == r.content && w.content.Valid() && w.content.Bytes() == []
    requires w.position == 0 && !w.isClosed && Writable(w.flag)
    requires !r.isClosed && Readable(r.flag)
    requires forall i :: size(i) > 0
    modifies w`position, r`position, w.content, w.content.buf
    ensures out == data && err == EOF
    ensures w.content.Valid() && w.content.Bytes() == data
  {
    var e := WriteAll(w, data, spare);
    assert w.content.Bytes() == data;
    var p, e' := r.Seek(0, SeekStart);
    out, err := ReadAll(r, size);
  }
}
