/** What callers see: round trip, isolation, allocator restoration, and the exact domain of alloc_inode. */
module Corollaries {
  import opened Layout
  import opened DiskImage
  import opened Bitmap
  import opened InodeTable
  import opened FileOps
  import opened Ownership
  import opened Files
  import opened WriteProof
  import opened ReadRemove
  import opened Refinement

  /** Round trip: after a good write, read_file returns exactly the bytes written. */
  lemma WriteThenRead(d: Image, i: nat, data: seq<byte>, g: Garbage, now: u32, g': Garbage)
    requires Inv(d) && Live(Table(d), i) && GoodWrite(d, i, |data|)
    ensures ReadFile(WriteFile(d, i, data, g), i, now, g').1 == Contents(|data|, data)
  {
    GoodWriteFiles(d, i, data, g);
    ReadAnswer(WriteFile(d, i, data, g), i, now, g');
  }

  /** Isolation: what read_file and getattr report of another inode is the same before and after. */
  ghost predicate SameView(d: Image, d': Image, j: nat) {
    && GetAttr(d', j) == GetAttr(d, j)
    && forall now: u32, g, g' :: ReadFile(d', j, now, g).1 == ReadFile(d, j, now, g').1
  }

  lemma SameFileSameView(d: Image, d': Image, j: nat)
    requires Inv(d) && Inv(d')
    requires if j in FilesOf(d) then j in FilesOf(d') && FilesOf(d')[j] == FilesOf(d)[j] else j !in FilesOf(d')
    ensures SameView(d, d', j)
  {
    StatRefines(d, j);
    StatRefines(d', j);
    assert Exec(d, Stat(j)).1 == Info(GetAttr(d, j)) && Exec(d', Stat(j)).1 == Info(GetAttr(d', j));
    forall now: u32, g, g'
      ensures ReadFile(d', j, now, g).1 == ReadFile(d, j, now, g').1
    {
      ReadAnswer(d, j, now, g');
      ReadAnswer(d', j, now, g);
    }
  }

  lemma ReadAnswer(d: Image, j: nat, now: u32, g: Garbage)
    requires Inv(d)
    ensures ReadFile(d, j, now, g).1 ==
            if j in FilesOf(d) then Contents(|FilesOf(d)[j].bytes|, FilesOf(d)[j].bytes) else NoFile
  {
    ReadRefines(d, j, now, g);
    assert Exec(d, Read(j, now, g)).1 == Answer(ReadFile(d, j, now, g).1);
  }

  lemma WriteIsolated(d: Image, i: nat, data: seq<byte>, g: Garbage, j: nat)
    requires Inv(d) && Live(Table(d), i) && GoodWrite(d, i, |data|) && j != i
    ensures SameView(d, WriteFile(d, i, data, g), j)
  {
    GoodWriteFiles(d, i, data, g);
    SameFileSameView(d, WriteFile(d, i, data, g), j);
  }

  lemma OthersSameView(d: Image, d': Image, i: nat, j: nat)
    requires Inv(d) && Inv(d') && FilesOf(d') == FilesOf(d) - {i} && j != i
    ensures SameView(d, d', j)
  {
    SameFileSameView(d, d', j);
  }

  lemma RemoveIsolated(d: Image, i: nat, g: Garbage, j: nat) returns (d': Image)
    requires Inv(d) && Live(Table(d), i) && GoodRemove(Table(d)[i].size) && j != i
    ensures RemoveFile(d, i, g) == Done(d') && SameView(d, d', j)
  {
    d' := GoodRemoveFiles(d, i, g);
    OthersSameView(d, d', i, j);
  }

  lemma GoodRemoveFiles(d: Image, i: nat, g: Garbage) returns (d': Image)
    requires Inv(d) && Live(Table(d), i) && GoodRemove(Table(d)[i].size)
    ensures RemoveFile(d, i, g) == Done(d') && Inv(d') && FilesOf(d') == FilesOf(d) - {i}
  {
    var ow :| Consistent(d, ow);
    d' := GoodRemoveCorrect(d, ow, i, g);
  }

  // ---- write then remove ----------------------------------------------------------------------------------

  /** Once inode i owns nothing any more, the owners are those of the disk on which it owned nothing yet. */
  lemma OwnersRestored(d: Image, ow: Owners, d': Image, ow': Owners, i: nat)
    requires OthersKept(d, ow, d', ow', i) && forall b :: b in ow ==> b < BLOCK_NUM && ow[b].i != i
    ensures DropInode(ow', i) == ow
  {
  }

  lemma DeadOwnsNothing(d: Image, ow: Owners, i: nat)
    requires Consistent(d, ow) && !Live(Table(d), i)
    ensures forall b :: b in ow ==> b < BLOCK_NUM && ow[b].i != i
  {
  }

  /** Writing an empty file and removing it gives back every block. */
  lemma WriteThenRemove(d: Image, ow: Owners, i: nat, data: seq<byte>, g: Garbage, g': Garbage) returns (d': Image)
    requires Consistent(d, ow) && Live(Table(d), i) && GoodWrite(d, i, |data|) && GoodRemove(|data|)
    requires forall b :: b in ow ==> b < BLOCK_NUM && ow[b].i != i
    ensures RemoveFile(WriteFile(d, i, data, g), i, g') == Done(d')
    ensures Used(d') == Used(d) && !Live(Table(d'), i) && FilesOf(d') == FilesOf(d) - {i}
  {
    GoodWriteCorrect(d, ow, i, data, g);
    var ow1 :| WriteDone(d, ow, WriteFile(d, i, data, g), ow1, i, data);
    d' := RemoveAfter(d, ow, WriteFile(d, i, data, g), ow1, i, data, g');
  }

  lemma RemoveAfter(d: Image, ow: Owners, d1: Image, ow1: Owners, i: nat, data: seq<byte>, g: Garbage)
    returns (d': Image)
    requires WriteDone(d, ow, d1, ow1, i, data) && GoodRemove(|data|)
    requires Used(d) == ow.Keys && forall b :: b in ow ==> b < BLOCK_NUM && ow[b].i != i
    ensures RemoveFile(d1, i, g) == Done(d')
    ensures Used(d') == Used(d) && !Live(Table(d'), i) && FilesOf(d') == FilesOf(d) - {i}
  {
    OwnersRestored(d, ow, d1, ow1, i);
    d' := RemoveAgain(d1, ow1, i, data, g);
    SameButOne(FilesOf(d), FilesOf(d1), i, FilesOf(d)[i].(bytes := data));
  }

  lemma SameButOne(m: FileMap, m': FileMap, i: nat, f: File)
    requires m' == m[i := f]
    ensures m' - {i} == m - {i}
  {
  }

  lemma RemoveAgain(d: Image, ow: Owners, i: nat, data: seq<byte>, g: Garbage) returns (d': Image)
    requires Consistent(d, ow) && i in FilesOf(d) && FilesOf(d)[i].bytes == data && GoodRemove(|data|)
    ensures RemoveFile(d, i, g) == Done(d')
    ensures Used(d') == DropInode(ow, i).Keys && !Live(Table(d'), i) && FilesOf(d') == FilesOf(d) - {i}
  {
    FileEntry(d, i);
    d' := GoodRemoveCorrect(d, ow, i, g);
  }

  /**
   * Allocating an inode, writing it once and removing it leaves the allocated blocks and the files as they were,
   * and the inode free.
   */
  lemma CreateWriteRemove(d: Image, typ: u32, now: Times, data: seq<byte>, g: Garbage, g': Garbage) returns (d': Image)
    requires Inv(d) && HasFreeInode(d) && typ % 0x1_0000 != 0
    requires var (d1, i) := AllocInode(d, typ, now); i < INODE_NUM && GoodWrite(d1, i, |data|) && GoodRemove(|data|)
    ensures var (d1, i) := AllocInode(d, typ, now);
            RemoveFile(WriteFile(d1, i, data, g), i, g') == Done(d') && !Live(Table(d'), i)
    ensures Used(d') == Used(d) && FilesOf(d') == FilesOf(d)
  {
    var ow :| Consistent(d, ow);
    var i, x := FreshInode(d), NewInode(typ, now);
    var d1 := PutInode(d, i, x);
    FreshInodeIsLeast(d);
    DeadOwnsNothing(d, ow, i);
    CreatedDisk(d, ow, i, x);
    d' := WriteThenRemove(d1, ow, i, data, g, g');
  }

  lemma CreatedDisk(d: Image, ow: Owners, i: nat, x: Inode)
    requires Consistent(d, ow) && i < INODE_NUM && !Live(Table(d), i)
    requires x.typ != 0 && x.size == 0 && x.blocks == NULL_BLOCKS
    ensures var d1 := PutInode(d, i, x);
            && Consistent(d1, ow) && Live(Table(d1), i) && Used(d1) == Used(d)
            && FilesOf(d1) - {i} == FilesOf(d)
  {
    CreateKeeps(d, ow, i, x);
    CreateFiles(d, ow, i, x);
    PutRefinesUpdate(d, i, x);
    DeadInodeNoFile(d, Table(d), i);
  }

  // ---- getattr --------------------------------------------------------------------------------------------

  /**
   * getattr reports what the file is: its size, its times, and its type, a 16-bit signed number that the
   * assignment to an unsigned 32-bit field extends.
   */
  lemma StatReports(d: Image, i: nat)
    ensures GetAttr(d, i).Some? <==> i in FilesOf(d)
    ensures i in FilesOf(d) ==>
              var a, f := GetAttr(d, i).value, FilesOf(d)[i];
              && a.typ == (if f.typ < 0x8000 then f.typ else 0x1_0000_0000 - (0x1_0000 - f.typ))
              && a.size == |f.bytes| && a.atime == f.atime && a.mtime == f.mtime && a.ctime == f.ctime
  {
    FileEntry(d, i);
  }

  /** A new inode has the type it was allocated with, no bytes, and the times of its allocation. */
  lemma CreateThenStat(d: Image, typ: u32, now: Times)
    requires 0 < typ < 0x8000
    ensures var (d', i) := AllocInode(d, typ, now);
            GetAttr(d', i) == Some(Attr(typ, 0, now.atime, now.mtime, now.ctime))
  {
    FreshInodeIsLeast(d);
    StoredThenStat(d, FreshInode(d), NewInode(typ, now));
  }

  lemma StoredThenStat(d: Image, i: nat, x: Inode)
    requires i < INODE_NUM && 0 < x.typ < 0x8000
    ensures GetAttr(PutInode(d, i, x), i) == Some(Attr(x.typ, x.size, x.atime, x.mtime, x.ctime))
  {
    PutThenGet(d, i, x, i);
  }

  /** A good write changes the reported size and nothing else that getattr reports. */
  lemma WriteThenStat(d: Image, i: nat, data: seq<byte>, g: Garbage)
    requires Inv(d) && Live(Table(d), i) && GoodWrite(d, i, |data|)
    ensures GetAttr(d, i).Some? && |data| <= MAX_BYTES
    ensures GetAttr(WriteFile(d, i, data, g), i) == Some(GetAttr(d, i).value.(size := |data|))
  {
    GoodWriteFiles(d, i, data, g);
    StatReports(d, i);
    StatReports(WriteFile(d, i, data, g), i);
  }

  // ---- the exact domain of alloc_inode --------------------------------------------------------------------

  /** alloc_inode hands out a number that names no file, and makes it an empty file of that type. */
  ghost predicate CreateWorks(d: Image, typ: u32, now: Times) {
    var (d', i) := AllocInode(d, typ, now);
    && Inv(d') && i !in FilesOf(d)
    && FilesOf(d') == FilesOf(d)[i := File(typ % 0x1_0000, [], now.atime, now.mtime, now.ctime)]
  }

  /** It does so if and only if some inode is free and the type does not vanish when stored in 16 bits. */
  lemma CreateExact(d: Image, typ: u32, now: Times)
    requires Inv(d)
    ensures CreateWorks(d, typ, now) <==> HasFreeInode(d) && typ % 0x1_0000 != 0
  {
    var ow :| Consistent(d, ow);
    var i, x := FreshInode(d), NewInode(typ, now);
    FreshInodeIsLeast(d);
    FileEntry(d, i);
    if HasFreeInode(d) {
      CreateKeeps(d, ow, i, x);
      CreateFiles(d, ow, i, x);
    }
  }

  /** With every inode in use, alloc_inode replaces file 0 by an empty file of the new type, or by none. */
  lemma CreateWhenFull(d: Image, typ: u32, now: Times)
    requires Inv(d) && !HasFreeInode(d)
    ensures AllocInode(d, typ, now).1 == 0 && 0 in FilesOf(d)
    ensures FilesOf(AllocInode(d, typ, now).0) ==
            if typ % 0x1_0000 == 0 then FilesOf(d) - {0}
            else FilesOf(d)[0 := File(typ % 0x1_0000, [], now.atime, now.mtime, now.ctime)]
  {
    var ow :| Consistent(d, ow);
    var x := NewInode(typ, now);
    var d' := PutInode(d, 0, x);
    FreshInodeIsLeast(d);
    FileEntry(d, 0);
    PutRefinesUpdate(d, 0, x);
    OthersBeforeLoop(d, ow, d', 0);
    OtherFilesKept(Used(d), Table(d), d, ow, d', DropDirect(ow, 0), 0, x);
    assert Bytes(d', x) == [];
  }

  // ---- numbers over whole runs ----------------------------------------------------------------------------

  lemma LeastFreeIsFree(m: FileMap, from: nat)
    requires from <= INODE_NUM
    ensures LeastFree(m, from) < INODE_NUM ==> LeastFree(m, from) !in m
    decreases INODE_NUM - from
  {
    if from < INODE_NUM && from in m {
      LeastFreeIsFree(m, from + 1);
    }
  }

  lemma {:induction false} NumberKept(m: FileMap, ops: seq<Op>, i: nat, n: nat)
    requires i in m && i < INODE_NUM && n < |ops| && ops[n].Create?
    requires forall k :: 0 <= k < n && ops[k].Remove? ==> ops[k].i != i
    ensures |RunMeaning(m, ops).1| == |ops| && RunMeaning(m, ops).1[n] != Number(i)
    decreases n
  {
    RunMeaningLength(m, ops);
    LeastFreeIsFree(m, 0);
    if n > 0 {
      assert ops[0].Remove? ==> ops[0].i != i;
      NumberKept(Meaning(m, ops[0]).0, ops[1..], i, n - 1);
    }
  }

  /** Over every good run from the constructor on, alloc_inode does not hand out number 0 until it is removed. */
  lemma RootNotReissued(now: Times, ops: seq<Op>, n: nat)
    requires GoodRun(map[0 := File(1, [], now.atime, now.mtime, now.ctime)], ops) && n < |ops| && ops[n].Create?
    requires forall k :: 0 <= k < n && ops[k].Remove? ==> ops[k].i != 0
    ensures |Run(Format(now), ops).1| == |ops| && Run(Format(now), ops).1[n] != Number(0)
  {
    SystemRefines(now, ops);
    NumberKept(map[0 := File(1, [], now.atime, now.mtime, now.ctime)], ops, 0, n);
  }
}
