/** The backing file, as the operating system presents it to the pager: a byte
    sequence read and written at explicit offsets.  Which system calls on the
    descriptor report an error (return -1) is part of the file's state. */
module Disk {
  import opened Codec

  datatype Call = Seek | Read | Write | Close

  /** `failing` lists the calls that report an error on this descriptor. */
  datatype File = File(bytes: Bytes, failing: set<Call>)

  /** What opening a path finds: no file yet (it is created empty), an
      existing file, or a path that cannot be opened for reading and writing. */
  datatype Entry = Missing | Present(file: File) | Inaccessible

  function Min(a: int, b: int): int { if a <= b then a else b }
  function Max(a: int, b: int): int { if a <= b then b else a }

  /** The bytes a read of up to `count` bytes at offset `off` delivers: fewer
      than asked at end of file, none beyond it. */
  function ReadAt(bytes: Bytes, off: nat, count: nat): (r: Bytes)
    ensures |r| == if off >= |bytes| then 0 else Min(count, |bytes| - off)
    ensures forall i | 0 <= i < |r| :: r[i] == bytes[off + i]
  {
    if off >= |bytes| then [] else bytes[off..off + Min(count, |bytes| - off)]
  }

  /** The file after writing `data` at offset `off`.  A write past the end
      extends the file; the gap between the old end and `off` reads as zero. */
  function WriteAt(bytes: Bytes, off: nat, data: Bytes): (r: Bytes)
    ensures |r| == Max(|bytes|, off + |data|)
    ensures forall i | 0 <= i < |data| :: r[off + i] == data[i]
    ensures forall i | 0 <= i < |bytes| && !(off <= i < off + |data|) :: r[i] == bytes[i]
    ensures forall i | |bytes| <= i < off :: r[i] == 0
  {
    var padded := if off <= |bytes| then bytes else bytes + Zeros(off - |bytes|);
    padded[..off] + data + (if off + |data| <= |padded| then padded[off + |data|..] else [])
  }
}
