/**
  The bytes of an in-memory file: a growable slice over a backing array, whose
  cells beyond the length keep whatever was stored in them before.
  */
module MemfsContent {

  type Byte = x: int | 0 <= x < 256

  function Zeros(n: nat): (s: seq<Byte>)
    ensures |s| == n && forall i :: 0 <= i < n ==> s[i] == 0
  {
    seq(n, _ => 0)
  }

  // The plain byte sequences that the contents stand for.

  function Resize(s: seq<Byte>, size: nat): seq<Byte> {
    if size <= |s| then s[..size] else s + Zeros(size - |s|)
  }

  function Overwrite(s: seq<Byte>, off: nat, p: seq<Byte>): (t: seq<Byte>)
    ensures |t| == if off + |p| > |s| then off + |p| else |s|
  {
    var padded := if off > |s| then Resize(s, off) else s;
    padded[..off] + p + if off + |p| < |s| then s[off + |p|..] else []
  }

  lemma OverwriteAt(s: seq<Byte>, off: nat, p: seq<Byte>, k: nat)
    requires k < |Overwrite(s, off, p)|
    ensures Overwrite(s, off, p)[k] ==
            if off <= k < off + |p| then p[k - off] else if k < |s| then s[k] else 0
  {
  }

  // Writing in chunks is writing the whole.
  lemma OverwriteInChunks(s: seq<Byte>, off: nat, p: seq<Byte>, q: seq<Byte>)
    ensures Overwrite(Overwrite(s, off, p), off + |p|, q) == Overwrite(s, off, p + q)
  {
    var once, twice := Overwrite(s, off, p + q), Overwrite(Overwrite(s, off, p), off + |p|, q);
    forall k | 0 <= k < |once|
      ensures once[k] == twice[k]
    {
      OverwriteAt(s, off, p + q, k);
      OverwriteAt(Overwrite(s, off, p), off + |p|, q, k);
      if k < |Overwrite(s, off, p)| {
        OverwriteAt(s, off, p, k);
      }
    }
  }

  class Content {
    var buf: array<Byte>  // the backing array; its length is the capacity
    var len: nat

    ghost predicate Valid()
      reads this
    {
      len <= buf.Length
    }

    ghost function Bytes(): (s: seq<Byte>)
      reads this, buf
      requires Valid()
    {
      buf[..len]
    }

    constructor ()
      ensures Valid() && fresh(buf) && Bytes() == []
    {
      buf := new Byte[0];
      len := 0;
    }

    // The built-in append: in place when the capacity suffices, else into a new array that
    // holds only the elements below the length, with any spare capacity.
    method Append(p: seq<Byte>, spare: nat)
      requires Valid()
      modifies this, buf
      ensures Valid() && Bytes() == old(Bytes()) + p
      ensures old(len) + |p| <= old(buf).Length <==> buf == old(buf)
      ensures buf != old(buf) ==> fresh(buf)
      ensures buf == old(buf) ==> forall i :: old(len) + |p| <= i < buf.Length ==> buf[i] == old(buf[i])
    {
      var needed := len + |p|;
      if needed > buf.Length {
        var grown := new Byte[needed + spare](_ => 0);
        forall i | 0 <= i < len {
          grown[i] := buf[i];
        }
        buf := grown;
      }
      forall i | len <= i < needed {
        buf[i] := p[i - len];
      }
      len := needed;
    }

    method WriteAt(p: seq<Byte>, off: nat, spare: nat) returns (n: nat)
      requires Valid()
      modifies this, buf
      ensures Valid() && (buf == old(buf) || fresh(buf))
      ensures n == |p| && Bytes() == Overwrite(old(Bytes()), off, p)
    {
      ghost var before := Bytes();
      var prev := len;
      if off > prev {
        Append(Zeros(off - prev), spare);
      }
      ghost var cells := buf[..];
      len := off;
      Append(p, spare);
      if len < prev {
        assert buf[..] == cells[..off] + p + cells[off + |p|..];
        len := prev;
      }
      n := |p|;
      assert Bytes() == Overwrite(before, off, p);
    }

    // file.Truncate, which is also Go's reslicing: shrinking keeps the backing array.
    method TruncateTo(size: nat, spare: nat)
      requires Valid()
      modifies this, buf
      ensures Valid() && (buf == old(buf) || fresh(buf))
      ensures Bytes() == Resize(old(Bytes()), size)
    {
      if size < len {
        len := size;
      } else if size > len {
        Append(Zeros(size - len), spare);
      }
    }

    // content.Truncate, used when a file is opened with O_TRUNC.
    method Empty()
      modifies this
      ensures Valid() && fresh(buf) && Bytes() == []
    {
      buf := new Byte[0];
      len := 0;
    }

    method ReadAt(b: array<Byte>, off: nat) returns (n: nat, eof: bool)
      requires Valid() && b != buf
      modifies b
      ensures n == if off >= |Bytes()| then 0 else if off + b.Length > |Bytes()| then |Bytes()| - off else b.Length
      ensures n <= b.Length && (n > 0 ==> off + n <= |Bytes()| && b[..n] == Bytes()[off..off + n])
      ensures b[n..] == old(b[n..])
      ensures eof <==> off >= |Bytes()| || n < b.Length
    {
      if off >= len {
        return 0, true;
      }
      n := b.Length;
      if off + n > len {
        n := len - off;
      }
      eof := n < b.Length;
      forall i | 0 <= i < n {
        b[i] := buf[off + i];
      }
      assert b[..n] == buf[off..off + n] == Bytes()[off..off + n];
    }

    // Each append may leave a spare capacity of its own.
    method Run(ops: seq<Op>, spare: nat -> nat)
      requires Valid()
      modifies this, buf
      ensures Valid() && Bytes() == ApplyAll(old(Bytes()), ops)
    {
      for i := 0 to |ops|
        modifies this, buf
        invariant Valid() && (buf == old(buf) || fresh(buf))
        invariant Bytes() == ApplyAll(old(Bytes()), ops[..i])
      {
        assert ops[..i + 1][..i] == ops[..i];
        match ops[i] {
          case Write(off, p) =>
            var n := WriteAt(p, off, spare(i));
          case Truncate(size) =>
            TruncateTo(size, spare(i));
          case Reset =>
            Empty();
        }
      }
      assert ops[..|ops|] == ops;
    }
  }

  // Runs of operations on a plain byte sequence.

  datatype Op = Write(off: nat, p: seq<Byte>) | Truncate(size: nat) | Reset

  function Apply(s: seq<Byte>, op: Op): seq<Byte> {
    match op
    case Write(off, p) => Overwrite(s, off, p)
    case Truncate(size) => Resize(s, size)
    case Reset => []
  }

  function ApplyAll(s: seq<Byte>, ops: seq<Op>): seq<Byte> {
    if ops == [] then s else Apply(ApplyAll(s, ops[..|ops| - 1]), ops[|ops| - 1])
  }

  // The last operation to have written position k, if no later one cut the file at or before k.
  function LastWriter(ops: seq<Op>, k: nat): (w: int)
    ensures -1 <= w < |ops|
    ensures w >= 0 ==> ops[w].Write? && ops[w].off <= k < ops[w].off + |ops[w].p|
  {
    if ops == [] then -1
    else
      match ops[|ops| - 1]
      case Write(off, p) =>
        if off <= k < off + |p| then |ops| - 1 else LastWriter(ops[..|ops| - 1], k)
      case Truncate(size) => if size <= k then -1 else LastWriter(ops[..|ops| - 1], k)
      case Reset => -1
  }

  lemma {:induction false} NothingWrittenBeyond(ops: seq<Op>, k: nat)
    requires k >= |ApplyAll([], ops)|
    ensures LastWriter(ops, k) == -1
  {
    if ops != [] {
      var before := ops[..|ops| - 1];
      match ops[|ops| - 1] {
        case Write(off, p) =>
          NothingWrittenBeyond(before, k);
        case Truncate(size) =>
        case Reset =>
      }
    }
  }

  // A byte of a file that began empty is the one last written there, or zero: never one that was
  // cut off, whatever the backing array still holds.
  lemma {:induction false} NoStaleBytes(ops: seq<Op>, k: nat)
    requires k < |ApplyAll([], ops)|
    ensures ApplyAll([], ops)[k] ==
            var w := LastWriter(ops, k); if w < 0 then 0 else ops[w].p[k - ops[w].off]
  {
    var before, last := ops[..|ops| - 1], ops[|ops| - 1];
    var s := ApplyAll([], before);
    if last.Write? {
      OverwriteAt(s, last.off, last.p, k);
    }
    if k < |s| {
      NoStaleBytes(before, k);
    } else {
      NothingWrittenBeyond(before, k);
    }
  }
}
