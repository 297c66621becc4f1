/** Whole runs: the disk refines a map from inode numbers to files. */
module Refinement {
  import opened Layout
  import opened DiskImage
  import opened Bitmap
  import opened InodeTable
  import opened FileOps
  import opened Ownership
  import opened Files
  import opened WriteLoop
  import opened WriteProof
  import opened ReadRemove
  import opened Conservation

  // ---- the operations, on disks and on file maps ----------------------------------------------------------

  datatype Op =
    | Create(typ: u32, times: Times)
    | Write(i: nat, data: seq<byte>, g: Garbage)
    | Read(i: nat, now: u32, g: Garbage)
    | Stat(i: nat)
    | Remove(i: nat, g: Garbage)

  datatype Reply = Nothing | Number(i: nat) | Answer(r: ReadResult) | Info(a: Option<Attr>)

  /** The code. */
  function Exec(d: Image, op: Op): (Outcome, Reply) {
    match op
    case Create(typ, now) => var (d', i) := AllocInode(d, typ, now); (Done(d'), Number(i))
    case Write(i, data, g) => (Done(WriteFile(d, i, data, g)), Nothing)
    case Read(i, now, g) => var (d', r) := ReadFile(d, i, now, g); (Done(d'), Answer(r))
    case Stat(i) => (Done(d), Info(GetAttr(d, i)))
    case Remove(i, g) => (RemoveFile(d, i, g), Nothing)
  }

  /** The least number from `from` on that names no file. */
  function LeastFree(m: FileMap, from: nat): nat
    requires from <= INODE_NUM
    decreases INODE_NUM - from, |m|
  {
    if from == INODE_NUM || from !in m then from else LeastFree(m, from + 1)
  }

  /** What the operation means. */
  function Meaning(m: FileMap, op: Op): (FileMap, Reply) {
    match op
    case Create(typ, now) =>
      var i := LeastFree(m, 0);
      (m[i := File(typ % 0x1_0000, [], now.atime, now.mtime, now.ctime)], Number(i))
    case Write(i, data, _) =>
      (if i in m && |data| <= MAX_BYTES then m[i := m[i].(bytes := data)] else m, Nothing)
    case Read(i, now, _) =>
      if i in m then (m[i := m[i].(atime := now)], Answer(Contents(|m[i].bytes|, m[i].bytes))) else (m, Answer(NoFile))
    case Stat(i) =>
      (m, Info(if i in m && |m[i].bytes| < 0x1_0000_0000
               then Some(Attr(SignExtend(m[i].typ), |m[i].bytes|, m[i].atime, m[i].mtime, m[i].ctime))
               else None))
    case Remove(i, _) => (m - {i}, Nothing)
  }

  /** When the code does what the operation means: a condition on the files alone. */
  predicate Good(m: FileMap, op: Op) {
    match op
    case Create(typ, _) => typ % 0x1_0000 != 0 && LeastFree(m, 0) < INODE_NUM
    case Write(i, data, _) =>
      i in m && |data| <= MAX_BYTES ==>
        && SizesFit(|m[i].bytes|, |data|)
        && Demand(m, INODE_NUM) - SlotCount(|m[i].bytes|) + SlotCount(|data|) <= DATA_BLOCKS
    case Read(_, _, _) => true
    case Stat(_) => true
    case Remove(i, _) => i in m ==> GoodRemove(|m[i].bytes|)
  }

  // ---- one operation --------------------------------------------------------------------------------------

  /** Exec does what the operation means. */
  ghost predicate Refines(d: Image, op: Op) {
    var (o, r) := Exec(d, op);
    && o.Done? && Inv(o.d)
    && (FilesOf(o.d), r) == Meaning(FilesOf(d), op)
  }

  lemma FileEntry(d: Image, i: nat)
    ensures i in FilesOf(d) <==> Live(Table(d), i)
    ensures GetInode(d, i) == if Live(Table(d), i) then Some(Table(d)[i]) else None
    ensures Live(Table(d), i) ==> FilesOf(d)[i] == FileOf(d, Table(d)[i]) && |FilesOf(d)[i].bytes| == Table(d)[i].size
  {
  }

  lemma LeastFreeIsLeast(d: Image, from: nat)
    requires from <= INODE_NUM
    ensures LeastFree(FilesOf(d), from) == FirstFreeInode(d, from)
    decreases INODE_NUM - from
  {
    if from < INODE_NUM {
      FileEntry(d, from);
      LeastFreeIsLeast(d, from + 1);
    }
  }

  lemma CreateRefines(d: Image, typ: u32, now: Times)
    requires Inv(d) && Good(FilesOf(d), Create(typ, now))
    ensures Refines(d, Create(typ, now))
  {
    var ow :| Consistent(d, ow);
    var i, x := FirstFreeInode(d, 0), NewInode(typ, now);
    LeastFreeIsLeast(d, 0);
    FirstFreeInodeIsLeast(d, 0);
    CreateKeeps(d, ow, i, x);
    CreateFiles(d, ow, i, x);
  }

  lemma WriteRefines(d: Image, i: nat, data: seq<byte>, g: Garbage)
    requires Inv(d) && Good(FilesOf(d), Write(i, data, g))
    ensures Refines(d, Write(i, data, g))
  {
    FileEntry(d, i);
    if i in FilesOf(d) && |data| <= MAX_BYTES {
      BlocksConserved(d);
      GoodWriteFiles(d, i, data, g);
    } else {
      assert WriteFile(d, i, data, g) == d;
    }
  }

  lemma GoodWriteFiles(d: Image, i: nat, data: seq<byte>, g: Garbage)
    requires Inv(d) && Live(Table(d), i) && GoodWrite(d, i, |data|)
    ensures Inv(WriteFile(d, i, data, g))
    ensures i in FilesOf(d) && FilesOf(WriteFile(d, i, data, g)) == FilesOf(d)[i := FilesOf(d)[i].(bytes := data)]
  {
    var ow :| Consistent(d, ow);
    GoodWriteCorrect(d, ow, i, data, g);
    var ow' :| WriteDone(d, ow, WriteFile(d, i, data, g), ow', i, data);
  }

  lemma ReadRefines(d: Image, i: nat, now: u32, g: Garbage)
    requires Inv(d)
    ensures Refines(d, Read(i, now, g))
  {
    FileEntry(d, i);
    if i in FilesOf(d) {
      var ow :| Consistent(d, ow);
      ReadReturns(d, ow, i, now, g);
      ReadKeeps(d, ow, i, now);
      ReadMeans(d, i, now, g, PutInode(d, i, Accessed(d, i, now)));
    }
  }

  lemma ReadMeans(d: Image, i: nat, now: u32, g: Garbage, d': Image)
    requires i in FilesOf(d) && Inv(d') && FilesOf(d') == FilesOf(d)[i := FilesOf(d)[i].(atime := now)]
    requires ReadFile(d, i, now, g) == (d', Contents(|FilesOf(d)[i].bytes|, FilesOf(d)[i].bytes))
    ensures Refines(d, Read(i, now, g))
  {
  }

  lemma StatRefines(d: Image, i: nat)
    requires Inv(d)
    ensures Refines(d, Stat(i))
  {
    FileEntry(d, i);
  }

  lemma RemoveRefines(d: Image, i: nat, g: Garbage)
    requires Inv(d) && Good(FilesOf(d), Remove(i, g))
    ensures Refines(d, Remove(i, g))
  {
    FileEntry(d, i);
    if i in FilesOf(d) {
      var ow :| Consistent(d, ow);
      var d' := GoodRemoveCorrect(d, ow, i, g);
    } else {
      assert FilesOf(d) - {i} == FilesOf(d);
    }
  }

  /** Every good operation on a consistent disk returns and changes exactly what it means. */
  lemma StepRefines(d: Image, op: Op)
    requires Inv(d) && Good(FilesOf(d), op)
    ensures Refines(d, op)
  {
    match op
    case Create(typ, now) => CreateRefines(d, typ, now);
    case Write(i, data, g) => WriteRefines(d, i, data, g);
    case Read(i, now, g) => ReadRefines(d, i, now, g);
    case Stat(i) => StatRefines(d, i);
    case Remove(i, g) => RemoveRefines(d, i, g);
  }

  // ---- whole runs -----------------------------------------------------------------------------------------

  /** The code, one operation after another; a crash ends the run. */
  function Run(d: Image, ops: seq<Op>): (Outcome, seq<Reply>)
    decreases |ops|
  {
    if ops == [] then (Done(d), [])
    else
      var (o, r) := Exec(d, ops[0]);
      if o == Crashed then (Crashed, [])
      else
        var (o', rs) := Run(o.d, ops[1..]);
        (o', [r] + rs)
  }

  /** The meaning of a run. */
  function RunMeaning(m: FileMap, ops: seq<Op>): (FileMap, seq<Reply>)
    decreases |ops|
  {
    if ops == [] then (m, [])
    else
      var (m', r) := Meaning(m, ops[0]);
      var (m'', rs) := RunMeaning(m', ops[1..]);
      (m'', [r] + rs)
  }

  lemma {:induction false} RunMeaningLength(m: FileMap, ops: seq<Op>)
    ensures |RunMeaning(m, ops).1| == |ops|
    decreases |ops|
  {
    if ops != [] {
      RunMeaningLength(Meaning(m, ops[0]).0, ops[1..]);
    }
  }

  /** Every operation is good when its turn comes. */
  predicate GoodRun(m: FileMap, ops: seq<Op>)
    decreases |ops|
  {
    ops != [] ==> Good(m, ops[0]) && GoodRun(Meaning(m, ops[0]).0, ops[1..])
  }

  /** A good run never crashes, keeps the disk consistent, and returns and leaves exactly what it means. */
  lemma {:induction false} RunRefines(d: Image, ops: seq<Op>)
    requires Inv(d) && GoodRun(FilesOf(d), ops)
    ensures var (o, rs) := Run(d, ops);
            && o.Done? && Inv(o.d)
            && (FilesOf(o.d), rs) == RunMeaning(FilesOf(d), ops)
    decreases |ops|
  {
    if ops != [] {
      StepRefines(d, ops[0]);
      RunRefines(Exec(d, ops[0]).0.d, ops[1..]);
    }
  }

  // ---- the formatted disk ---------------------------------------------------------------------------------

  lemma ZeroBlockWords(v: nat)
    requires v < NINDIRECT
    ensures Word(ZeroBlock(), v) == 0
  {
  }

  lemma ZeroByteClear(k: nat)
    requires k < 8
    ensures !BitSet(0, k)
  {
  }

  /** The zeroed disk has no files and no allocated blocks. */
  lemma ZeroImageConsistent()
    ensures Consistent(ZeroImage(), map[]) && FilesOf(ZeroImage()) == map[]
  {
    var d: Image := ZeroImage();
    forall i | 0 <= i < INODE_NUM
      ensures Table(d)[i].typ == 0
    {
      RegionsDisjoint(0, i);
      ZeroBlockWords(InodeWord(i));
      assert Table(d)[i] == InodeAt(d, i);
      assert GetWords(d[InodeBlock(i)], InodeWord(i))[0] == 0;
    }
    forall b | FIRST_DATA <= b < BLOCK_NUM
      ensures !Allocated(d, b)
    {
      RegionsDisjoint(b, 0);
      ZeroByteClear(b % BITS_PER_BLOCK % 8);
    }
    assert Used(d) == {};
  }

  /** The constructor gets number 0 for the root directory, as it expects, and leaves one empty file. */
  lemma FormatCorrect(now: Times)
    ensures AllocInode(ZeroImage(), 1, now).1 == 0
    ensures Inv(Format(now))
    ensures FilesOf(Format(now)) == map[0 := File(1, [], now.atime, now.mtime, now.ctime)]
  {
    ZeroImageConsistent();
    FirstCreate(ZeroImage(), FilesOf(ZeroImage()), 1, now);
  }

  lemma FirstCreate(d: Image, m: FileMap, typ: u32, now: Times)
    requires Inv(d) && FilesOf(d) == m && m == map[] && 0 < typ < 0x1_0000
    ensures AllocInode(d, typ, now).1 == 0 && Inv(AllocInode(d, typ, now).0)
    ensures FilesOf(AllocInode(d, typ, now).0) == map[0 := File(typ, [], now.atime, now.mtime, now.ctime)]
  {
    NoFilesLeast(m);
    assert typ % 0x1_0000 == typ;
    CreatedFrom(d, m, typ, now);
    var f := File(typ, [], now.atime, now.mtime, now.ctime);
    OneFile(m, FilesOf(AllocInode(d, typ, now).0), f);
  }

  lemma OneFile(m: FileMap, m': FileMap, f: File)
    requires m == map[] && m' == m[0 := f]
    ensures m' == map[0 := f]
  {
  }

  lemma CreatedFrom(d: Image, m: FileMap, typ: u32, now: Times)
    requires Inv(d) && FilesOf(d) == m && Good(m, Create(typ, now))
    ensures FilesOf(AllocInode(d, typ, now).0) ==
            m[LeastFree(m, 0) := File(typ % 0x1_0000, [], now.atime, now.mtime, now.ctime)]
    ensures AllocInode(d, typ, now).1 == LeastFree(m, 0) && Inv(AllocInode(d, typ, now).0)
  {
    CreateRefines(d, typ, now);
    CreatedFiles(d, typ, now);
  }

  lemma CreatedFiles(d: Image, typ: u32, now: Times)
    requires Refines(d, Create(typ, now))
    ensures FilesOf(AllocInode(d, typ, now).0) ==
            FilesOf(d)[LeastFree(FilesOf(d), 0) := File(typ % 0x1_0000, [], now.atime, now.mtime, now.ctime)]
    ensures AllocInode(d, typ, now).1 == LeastFree(FilesOf(d), 0) && Inv(AllocInode(d, typ, now).0)
  {
  }

  lemma NoFilesLeast(m: FileMap)
    requires m == map[]
    ensures LeastFree(m, 0) == 0
    ensures forall f: File :: m[0 := f] == map[0 := f]
  {
  }

  /** The whole-run theorem, from the constructor on. */
  lemma SystemRefines(now: Times, ops: seq<Op>)
    requires GoodRun(map[0 := File(1, [], now.atime, now.mtime, now.ctime)], ops)
    ensures var (o, rs) := Run(Format(now), ops);
            && o.Done? && Inv(o.d)
            && (FilesOf(o.d), rs) == RunMeaning(map[0 := File(1, [], now.atime, now.mtime, now.ctime)], ops)
  {
    FormatCorrect(now);
    RunRefines(Format(now), ops);
  }
}
