/** Runs of reads and seeks on a handle, against a cursor over the flat contents. */
module Ext3Runs {
  import opened Bytes
  import opened Ext3Blocks
  import opened Ext3File

  datatype Op = Read(n: u32) | Seek(offset: u32, whence: nat) | Tell | Eof
  datatype Reply = Data(data: seq<byte>) | Position(p: nat) | AtEnd(end: bool)

  // The reference: a cursor over the file's bytes.

  function Slice(contents: seq<byte>, pos: nat, n: nat): seq<byte> {
    if pos >= |contents| then [] else contents[pos..pos + ReadCount(pos, |contents|, n)]
  }

  function Moved(size: u32, pos: u32, op: Op): (p: u32)
    requires pos <= size
    ensures p <= size
  {
    match op
    case Read(n) => pos + ReadCount(pos, size, n)
    case Seek(offset, whence) => SeekTo(pos, size, offset, whence)
    case Tell => pos
    case Eof => pos
  }

  function Answer(contents: seq<byte>, pos: u32, op: Op): Reply
    requires pos <= |contents| < U32
  {
    match op
    case Read(n) => Data(Slice(contents, pos, n))
    case Seek(_, _) => Position(Moved(|contents|, pos, op))
    case Tell => Position(pos)
    case Eof => AtEnd(pos == |contents|)
  }

  function Final(size: u32, pos: u32, ops: seq<Op>): (p: u32)
    requires pos <= size
    ensures p <= size
    decreases ops
  {
    if ops == [] then pos else Final(size, Moved(size, pos, ops[0]), ops[1..])
  }

  function Answers(contents: seq<byte>, pos: u32, ops: seq<Op>): (r: seq<Reply>)
    requires pos <= |contents| < U32
    ensures |r| == |ops|
    decreases ops
  {
    if ops == [] then [] else
      [Answer(contents, pos, ops[0])] + Answers(contents, Moved(|contents|, pos, ops[0]), ops[1..])
  }

  // The handle.

  /** A file none of whose blocks is missing. */
  ghost predicate Whole(file: FileHandle)
    reads file
  {
    && file.Valid() && file.bs > 0 && file.position <= file.size
    && FullyMapped(file.List(), file.bs, file.size)
    && file.size <= |file.Contents()|
  }

  /** The bytes of the file: its blocks one after the other, cut to its size. */
  ghost function FileBytes(file: FileHandle): (r: seq<byte>)
    requires Whole(file)
    reads file
    ensures |r| == file.size
  {
    file.Contents()[..file.size]
  }

  /** A file that its pointers cover has contents up to its size. */
  lemma {:induction false} FlatSize(disk: Disk, bs: nat, list: seq<u32>)
    requires DiskOk(disk, bs)
    ensures |Flat(disk, bs, list)| == |list| * bs
  {
    if list != [] {
      FlatSize(disk, bs, list[1..]);
      TimesStep(|list| - 1, bs);
      assert |disk[list[0]]| == bs;
    }
    hide DiskOk;
  }

  /** A handle opened on an inode whose pointers cover its size, with no hole, is whole. */
  method Open(disk: Disk, bs: nat, block: seq<u32>, size: u32) returns (file: FileHandle)
    requires DiskOk(disk, bs) && |block| == 15 && FullyMapped(BlockList(disk, bs, block), bs, size)
    ensures fresh(file) && Whole(file) && file.position == 0 && file.size == size
    ensures file.disk == disk && file.bs == bs && file.block == block
  {
    assert bs > 0;
    FlatSize(disk, bs, BlockList(disk, bs, block));
    hide DiskOk, BlockList, Flat;
    file := new FileHandle(disk, bs, block, size);
  }

  lemma NothingMissing(list: seq<u32>, bs: nat, size: nat, p: nat)
    requires bs > 0 && FullyMapped(list, bs, size) && p < size
    ensures !Missing(list, bs, p)
  {
    DivFacts(p, bs);
    assert p / bs * bs < size;
  }

  /** ext3_read on a whole file delivers exactly the bytes asked for that exist. */
  method ReadSome(file: FileHandle, n: u32) returns (data: seq<byte>)
    requires Whole(file)
    modifies file`position
    ensures Whole(file)
    ensures data == Slice(FileBytes(file), old(file.position), n)
    ensures file.position == old(file.position) + |data| <= file.size
    ensures |data| == n || (|data| < n && file.position == file.size)
    ensures data == FileBytes(file)[old(file.position)..file.position]
    ensures file.position == Moved(file.size, old(file.position), Op.Read(n))
  {
    hide FullyMapped, DiskOk, FileHandle.List, FileHandle.Contents, Missing, NoHoles;
    var position := file.position;
    var buffer := new byte[ReadCount(position, file.size, n)];
    var total := file.Read(buffer, n);
    if total < ReadCount(position, file.size, n) {
      NothingMissing(file.List(), file.bs, file.size, file.position);
    }
    data := buffer[..total];
    SliceOf(data, file.Contents(), file.size, position, n);
  }

  lemma SliceOf(data: seq<byte>, contents: seq<byte>, size: nat, pos: nat, n: nat)
    requires Matches(data, contents, pos) && pos <= size <= |contents| && |data| == ReadCount(pos, size, n)
    ensures data == Slice(contents[..size], pos, n)
  {
  }

  /** One operation on the handle is one step of the cursor. */
  method Perform(file: FileHandle, op: Op) returns (reply: Reply)
    requires Whole(file)
    modifies file`position
    ensures Whole(file)
    ensures reply == Answer(FileBytes(file), old(file.position), op)
    ensures file.position == Moved(file.size, old(file.position), op)
  {
    hide FullyMapped, DiskOk, FileHandle.List, FileHandle.Contents, Slice;
    match op
    case Read(n) =>
      var data := ReadSome(file, n);
      reply := Data(data);
    case Seek(offset, whence) =>
      var p := file.Seek(offset, whence);
      reply := Position(p);
    case Tell =>
      var p := file.Tell();
      reply := Position(p);
    case Eof =>
      var end := file.Eof();
      reply := AtEnd(end);
  }

  /** Any run of reads and seeks answers as the cursor does, and never leaves the file. */
  method Run(file: FileHandle, ops: seq<Op>) returns (replies: seq<Reply>)
    requires Whole(file)
    modifies file`position
    ensures Whole(file)
    ensures replies == Answers(FileBytes(file), old(file.position), ops)
    ensures file.position == Final(file.size, old(file.position), ops)
  {
    hide FullyMapped, DiskOk, FileHandle.List, FileHandle.Contents, Moved, Answer;
    replies := [];
    var i := 0;
    ghost var start := file.position;
    while i < |ops|
      invariant i <= |ops| && Whole(file)
      invariant file.position == Final(file.size, start, ops[..i])
      invariant replies == Answers(FileBytes(file), start, ops[..i])
    {
      var reply := Perform(file, ops[i]);
      OneMore(FileBytes(file), start, ops[..i], ops[i]);
      assert ops[..i + 1] == ops[..i] + [ops[i]];
      replies := replies + [reply];
      i := i + 1;
    }
    assert ops[..i] == ops;
  }

  lemma {:induction false} OneMore(contents: seq<byte>, pos: u32, ops: seq<Op>, op: Op)
    requires pos <= |contents| < U32
    ensures Final(|contents|, pos, ops + [op]) == Moved(|contents|, Final(|contents|, pos, ops), op)
    ensures Answers(contents, pos, ops + [op]) ==
            Answers(contents, pos, ops) + [Answer(contents, Final(|contents|, pos, ops), op)]
    decreases ops
  {
    hide Moved, Answer;
    if ops != [] {
      OneMore(contents, Moved(|contents|, pos, ops[0]), ops[1..], op);
      assert (ops + [op])[1..] == ops[1..] + [op];
    }
  }

  // What the cursor says of consecutive reads.

  function Reads(ns: seq<u32>): seq<Op> {
    if ns == [] then [] else [Op.Read(ns[0])] + Reads(ns[1..])
  }

  function Sum(ns: seq<u32>): nat {
    if ns == [] then 0 else ns[0] + Sum(ns[1..])
  }

  function AllData(replies: seq<Reply>): seq<byte> {
    if replies == [] then [] else
      (match replies[0] case Data(d) => d case _ => []) + AllData(replies[1..])
  }

  /** Consecutive reads deliver, together, what one read of their sum would, and leave the cursor where it would. */
  lemma {:induction false} ReadsJoin(contents: seq<byte>, pos: u32, ns: seq<u32>)
    requires pos <= |contents| < U32
    ensures AllData(Answers(contents, pos, Reads(ns))) == Slice(contents, pos, Sum(ns))
    ensures Final(|contents|, pos, Reads(ns)) == pos + ReadCount(pos, |contents|, Sum(ns))
    decreases ns
  {
    hide Slice;
    if ns == [] {
      NoBytes(contents, pos);
    } else {
      var next := Moved(|contents|, pos, Op.Read(ns[0]));
      hide ReadCount;
      SliceJoin(contents, pos, ns[0], Sum(ns[1..]));
      ReadsJoin(contents, next, ns[1..]);
      FirstRead(contents, pos, ns);
    }
  }

  /** ext3_eof says yes exactly when a read of any length delivers nothing. */
  lemma EofMeans(contents: seq<byte>, pos: u32)
    requires pos <= |contents| < U32
    ensures Answer(contents, pos, Op.Eof) == AtEnd(true) <==> forall n: nat :: Slice(contents, pos, n) == []
  {
    if pos < |contents| {
      assert |Slice(contents, pos, 1)| == 1;
    }
  }

  lemma NoBytes(contents: seq<byte>, pos: nat)
    ensures Slice(contents, pos, 0) == [] && ReadCount(pos, |contents|, 0) == 0
  {
  }

  lemma FirstRead(contents: seq<byte>, pos: u32, ns: seq<u32>)
    requires pos <= |contents| < U32 && ns != []
    ensures var next := Moved(|contents|, pos, Op.Read(ns[0]));
            && Answers(contents, pos, Reads(ns)) ==
               [Data(Slice(contents, pos, ns[0]))] + Answers(contents, next, Reads(ns[1..]))
            && Final(|contents|, pos, Reads(ns)) == Final(|contents|, next, Reads(ns[1..]))
  {
    hide Slice, ReadCount;
    assert Reads(ns)[1..] == Reads(ns[1..]);
  }

  lemma SliceJoin(contents: seq<byte>, pos: nat, m: nat, k: nat)
    requires pos <= |contents|
    ensures var next := pos + ReadCount(pos, |contents|, m);
            && Slice(contents, pos, m) + Slice(contents, next, k) == Slice(contents, pos, m + k)
            && next + ReadCount(next, |contents|, k) == pos + ReadCount(pos, |contents|, m + k)
  {
    CountsJoin(pos, |contents|, m, k);
    var next := pos + ReadCount(pos, |contents|, m);
    var end := next + ReadCount(next, |contents|, k);
    SliceIs(contents, pos, m);
    SliceIs(contents, next, k);
    SliceIs(contents, pos, m + k);
    hide Slice, ReadCount;
    assert contents[pos..next] + contents[next..end] == contents[pos..end];
  }

  lemma CountsJoin(pos: nat, size: nat, m: nat, k: nat)
    requires pos <= size
    ensures var next := pos + ReadCount(pos, size, m);
            next + ReadCount(next, size, k) == pos + ReadCount(pos, size, m + k) <= size
  {
  }

  lemma SliceIs(contents: seq<byte>, pos: nat, n: nat)
    requires pos <= |contents|
    ensures pos + ReadCount(pos, |contents|, n) <= |contents|
    ensures Slice(contents, pos, n) == contents[pos..pos + ReadCount(pos, |contents|, n)]
  {
  }
}
