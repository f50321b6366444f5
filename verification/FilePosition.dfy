/** File positions under 64-bit arithmetic: fseek, rewind and the guard of fread
    (kernel/fs/FS.c:92-134). */
module FilePosition {

  type u64 = x: int | 0 <= x < 0x1_0000_0000_0000_0000
  type s64 = x: int | -0x8000_0000_0000_0000 <= x < 0x8000_0000_0000_0000

  /** SEEK_SET, SEEK_CUR, SEEK_END, or another value of the argument. */
  datatype Whence = SeekSet | SeekCur | SeekEnd | Unknown

  /** Conversion of an integer result to an unsigned 64-bit value. */
  function Wrap(x: int): u64 {
    x % 0x1_0000_0000_0000_0000
  }

  lemma WrapCases(x: int)
    requires -0x1_0000_0000_0000_0000 <= x < 0x2_0000_0000_0000_0000
    ensures Wrap(x) == if x < 0 then x + 0x1_0000_0000_0000_0000
                       else if x < 0x1_0000_0000_0000_0000 then x else x - 0x1_0000_0000_0000_0000
  {}

  // ----- the specification, on mathematical integers -----

  /** The position a seek asks for. */
  function Target(pointer: nat, size: nat, offset: int, whence: Whence): int {
    match whence
    case SeekSet => offset
    case SeekCur => pointer + offset
    case SeekEnd => size + offset
    case Unknown => pointer
  }

  /** A seek is possible if it stays before the end of the file. */
  predicate Possible(pointer: nat, size: nat, offset: int, whence: Whence) {
    !whence.Unknown? && 0 <= Target(pointer, size, offset, whence) < size
  }

  class File {
    var pointer: u64
    var size: u64

    /** The position is before the end of the file, or the file is empty and the position 0. */
    predicate Valid()
      reads this
    {
      (pointer < size || pointer == size == 0) && size <= 0x8000_0000_0000_0000
    }

    /** What fopen leaves; FAT sizes have 32 bits. */
    constructor (size: u64)
      requires size < 0x1_0000_0000
      ensures Valid() && pointer == 0 && this.size == size
    {
      pointer, this.size := 0, size;
    }

    /** fseek. The comparisons are unsigned: `offset >= fp->size` converts the offset, and the sums
        wrap around; even so they decide exactly what the integer specification says. A SEEK_END that
        succeeds falls through to the default case and returns -1. */
    method Seek(offset: s64, whence: Whence) returns (r: int)
      requires Valid()
      modifies this
      ensures Valid() && size == old(size)
      ensures whence.SeekSet? ==>
                if 0 <= offset < size then r == 0 && pointer == offset else r == -2 && pointer == old(pointer)
      ensures whence.SeekCur? ==>
                if 0 <= old(pointer) + offset < size then r == 0 && pointer == old(pointer) + offset
                else r == -2 && pointer == old(pointer)
      ensures whence.SeekEnd? ==>
                if 0 <= size + offset < size then r == -1 && pointer == size + offset
                else r == -2 && pointer == old(pointer)
      ensures whence.Unknown? ==> r == -1 && pointer == old(pointer)
      ensures pointer == if Possible(old(pointer), size, offset, whence)
                         then Target(old(pointer), size, offset, whence) else old(pointer)
    {
      hide Wrap;
      match whence
      case SeekSet =>
        WrapCases(offset);
        if Wrap(offset) >= size {
          return -2;
        }
        if offset < 0 {
          return -2;
        }
        pointer := Wrap(offset);
        return 0;
      case SeekCur =>
        WrapCases(pointer + offset);
        if Wrap(offset + pointer) >= size {
          return -2;
        }
        pointer := Wrap(pointer + offset);
        return 0;
      case SeekEnd =>
        if offset >= 0 {
          return -2;
        }
        WrapCases(-(offset as int));
        WrapCases(size + offset);
        if Wrap(-(offset as int)) > size {
          return -2;
        }
        pointer := Wrap(size + offset);
        return -1;
      case Unknown =>
        return -1;
    }

    /** rewind */
    method Rewind()
      requires Valid()
      modifies this
      ensures Valid() && pointer == 0 && size == old(size)
    {
      pointer := 0;
    }

    /** The guards of fread. The unsigned difference is the number of bytes left, and a request is
        passed on exactly when it is not empty and ends inside the file. The position stays. */
    method ReadAllowed(bytes: u64) returns (ok: bool)
      requires Valid()
      ensures ok <==> bytes > 0 && pointer + bytes <= size
    {
      if bytes == 0 {
        return false;
      }
      if bytes > Wrap(size - pointer) {
        return false;
      }
      return true;
    }
  }

  // ----- runs -----

  datatype Op = SeekOp(offset: s64, whence: Whence) | RewindOp | ReadOp(bytes: u64)

  /** The integer specification of a run of calls on a file. */
  function Position(ops: seq<Op>, size: nat): nat {
    if ops == [] then 0
    else
      var p := Position(ops[..|ops| - 1], size);
      match ops[|ops| - 1]
      case SeekOp(offset, whence) =>
        if Possible(p, size, offset, whence) then Target(p, size, offset, whence) else p
      case RewindOp => 0
      case ReadOp(_) => p
  }

  /** The position stays inside the file, or both are 0. */
  lemma {:induction false} PositionInside(ops: seq<Op>, size: nat)
    ensures Position(ops, size) < size || Position(ops, size) == size == 0
  {
    if ops != [] {
      PositionInside(ops[..|ops| - 1], size);
    }
  }

  /** The reads of a run that are passed on, as position and length: those that are not empty and end
      inside the file. */
  function Passed(ops: seq<Op>, size: nat): seq<(nat, nat)> {
    if ops == [] then []
    else
      var k := |ops| - 1;
      var p, op := Position(ops[..k], size), ops[k];
      Passed(ops[..k], size) + (if op.ReadOp? && op.bytes > 0 && p + op.bytes <= size then [(p, op.bytes)] else [])
  }

  /** Every read that is passed on lies inside the file. */
  lemma {:induction false} PassedInside(ops: seq<Op>, size: nat)
    ensures forall r :: r in Passed(ops, size) ==> r.1 > 0 && r.0 + r.1 <= size
  {
    if ops != [] {
      PassedInside(ops[..|ops| - 1], size);
    }
  }

  /** Any sequence of calls on a file keeps its position where the integer specification puts it, and
      passes on exactly the reads that it says. */
  method Run(f: File, ops: seq<Op>) returns (slices: seq<(nat, nat)>)
    requires f.Valid() && f.pointer == 0
    modifies f
    ensures f.Valid() && f.size == old(f.size)
    ensures f.pointer == Position(ops, f.size)
    ensures slices == Passed(ops, f.size)
  {
    slices := [];
    for i := 0 to |ops|
      invariant f.Valid() && f.size == old(f.size)
      invariant f.pointer == Position(ops[..i], f.size)
      invariant slices == Passed(ops[..i], f.size)
    {
      assert ops[..i + 1][..i] == ops[..i];
      match ops[i]
      case SeekOp(offset, whence) =>
        var _ := f.Seek(offset, whence);
      case RewindOp =>
        f.Rewind();
      case ReadOp(bytes) =>
        var ok := f.ReadAllowed(bytes);
        if ok {
          slices := slices + [(f.pointer, bytes)];
        }
    }
    assert ops[..|ops|] == ops;
  }
}
