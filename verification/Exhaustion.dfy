/** Runs of good operations that use up the inodes or the blocks of a formatted disk, and the next call after them. */
module Exhaustion {
  import opened Layout
  import opened DiskImage
  import opened Bitmap
  import opened InodeTable
  import opened FileOps
  import opened Ownership
  import opened Files
  import opened WriteLoop
  import opened WriteProof
  import opened ReadRemove
  import opened Conservation
  import opened Refinement
  import opened Exactness
  import opened Corollaries
  import opened Isolation

  /** The files are numbered 0, 1, ..., k - 1. */
  ghost predicate Numbered(m: FileMap, k: nat) {
    forall j: nat :: j in m <==> j < k
  }

  lemma {:induction false} LeastFreeNumbered(m: FileMap, k: nat, from: nat)
    requires Numbered(m, k) && from <= k <= INODE_NUM
    ensures LeastFree(m, from) == k
    decreases k - from
  {
    if from < k {
      LeastFreeNumbered(m, k, from + 1);
    }
  }

  lemma CreateNumbered(m: FileMap, k: nat, typ: u32, now: Times)
    requires Numbered(m, k) && k < INODE_NUM && typ % 0x1_0000 != 0
    ensures Good(m, Create(typ, now))
    ensures Meaning(m, Create(typ, now)).0 == m[k := File(typ % 0x1_0000, [], now.atime, now.mtime, now.ctime)]
    ensures Numbered(Meaning(m, Create(typ, now)).0, k + 1)
  {
    LeastFreeNumbered(m, k, 0);
  }

  // ---- all inodes in use ----------------------------------------------------------------------------------

  function Creates(n: nat, typ: u32, now: Times): seq<Op> {
    if n == 0 then [] else [Create(typ, now)] + Creates(n - 1, typ, now)
  }

  lemma {:induction false} CreatesNumbered(m: FileMap, k: nat, n: nat, typ: u32, now: Times)
    requires Numbered(m, k) && k + n <= INODE_NUM && typ % 0x1_0000 != 0
    ensures GoodRun(m, Creates(n, typ, now))
    ensures Numbered(RunMeaning(m, Creates(n, typ, now)).0, k + n)
    decreases n
  {
    if n > 0 {
      CreateNumbered(m, k, typ, now);
      CreatesNumbered(Meaning(m, Create(typ, now)).0, k + 1, n - 1, typ, now);
      assert Creates(n, typ, now)[1..] == Creates(n - 1, typ, now);
    }
  }

  lemma NoFreeInode(d: Image)
    requires Numbered(FilesOf(d), INODE_NUM)
    ensures !HasFreeInode(d) && FreshInode(d) == 0
  {
    LeastFreeNumbered(FilesOf(d), INODE_NUM, 0);
    LeastFreeIsLeast(d, 0);
    FirstFreeInodeIsLeast(d, 0);
  }

  /**
   * 1023 good calls of alloc_inode after the constructor use up all numbers; the next call hands out number 0,
   * which is in use, and replaces the root directory by an empty file of the new type, or by none.
   */
  lemma FullTable(now: Times, typ: u32, typ': u32, now': Times) returns (d: Image)
    requires typ % 0x1_0000 != 0
    ensures Run(Format(now), Creates(1023, typ, now)).0 == Done(d) && Inv(d) && 0 in FilesOf(d)
    ensures AllocInode(d, typ', now').1 == 0 && !CreateWorks(d, typ', now')
    ensures FilesOf(AllocInode(d, typ', now').0) ==
            if typ' % 0x1_0000 == 0 then FilesOf(d) - {0}
            else FilesOf(d)[0 := File(typ' % 0x1_0000, [], now'.atime, now'.mtime, now'.ctime)]
  {
    var m := map[0 := File(1, [], now.atime, now.mtime, now.ctime)];
    CreatesNumbered(m, 1, 1023, typ, now);
    SystemRefines(now, Creates(1023, typ, now));
    d := Run(Format(now), Creates(1023, typ, now)).0.d;
    NoFreeInode(d);
    CreateExact(d, typ', now');
    CreateWhenFull(d, typ', now');
  }

  // ---- all blocks in use ----------------------------------------------------------------------------------

  /** Files 1, ..., full hold 136 blocks each, and the others are empty. */
  ghost predicate Filled(m: FileMap, k: nat, full: nat) {
    && Numbered(m, k) && full < k
    && forall j :: j in m ==> |m[j].bytes| == if 1 <= j <= full then MAX_BYTES else 0
  }

  lemma {:induction false} DemandFilled(m: FileMap, k: nat, full: nat, n: nat)
    requires Filled(m, k, full) && k <= INODE_NUM
    ensures Demand(m, n) == 137 * Max(0, Min(n - 1, full))
    decreases n
  {
    if n > 0 {
      DemandFilled(m, k, full, n - 1);
      assert SlotCount(MAX_BYTES) == 137 && SlotCount(0) == 0;
    }
  }

  /** Files k, k + 1, ..., k + n - 1 are created and filled, and one more is created. */
  function Fill(k: nat, n: nat, typ: u32, now: Times, data: seq<byte>, g: Garbage): seq<Op>
    decreases n
  {
    if n == 0 then [Create(typ, now)]
    else [Create(typ, now), Write(k, data, g)] + Fill(k + 1, n - 1, typ, now, data, g)
  }

  lemma FillOne(m: FileMap, k: nat, typ: u32, now: Times, data: seq<byte>, g: Garbage)
    returns (m1: FileMap, m2: FileMap)
    requires 1 <= k <= 238 && Filled(m, k, k - 1) && typ % 0x1_0000 != 0 && |data| == MAX_BYTES
    ensures Good(m, Create(typ, now)) && m1 == Meaning(m, Create(typ, now)).0
    ensures Good(m1, Write(k, data, g)) && m2 == Meaning(m1, Write(k, data, g)).0
    ensures Filled(m2, k + 1, k)
  {
    CreateNumbered(m, k, typ, now);
    m1 := Meaning(m, Create(typ, now)).0;
    assert Filled(m1, k + 1, k - 1);
    DemandFilled(m1, k + 1, k - 1, INODE_NUM);
    assert SizesFit(0, MAX_BYTES) && SlotCount(MAX_BYTES) == 137 && SlotCount(0) == 0;
    m2 := Meaning(m1, Write(k, data, g)).0;
  }

  lemma {:induction false} FillRuns(m: FileMap, k: nat, n: nat, typ: u32, now: Times, data: seq<byte>, g: Garbage)
    requires 1 <= k && k + n <= 239 && Filled(m, k, k - 1) && typ % 0x1_0000 != 0 && |data| == MAX_BYTES
    ensures GoodRun(m, Fill(k, n, typ, now, data, g))
    ensures Filled(RunMeaning(m, Fill(k, n, typ, now, data, g)).0, k + n + 1, k + n - 1)
    decreases n
  {
    var ops := Fill(k, n, typ, now, data, g);
    if n == 0 {
      CreateNumbered(m, k, typ, now);
      LastCreated(m, k, typ, now);
    } else {
      var m1, m2 := FillOne(m, k, typ, now, data, g);
      FillRuns(m2, k + 1, n - 1, typ, now, data, g);
      RunTwo(m, ops, m1, m2, Fill(k + 1, n - 1, typ, now, data, g));
    }
  }

  lemma LastCreated(m: FileMap, k: nat, typ: u32, now: Times)
    requires 1 <= k < INODE_NUM && Filled(m, k, k - 1) && typ % 0x1_0000 != 0
    ensures GoodRun(m, [Create(typ, now)]) && Filled(RunMeaning(m, [Create(typ, now)]).0, k + 1, k - 1)
  {
    CreateNumbered(m, k, typ, now);
    var m1 := Meaning(m, Create(typ, now)).0;
    assert [Create(typ, now)][1..] == [];
    assert RunMeaning(m1, []).0 == m1 && GoodRun(m1, []);
  }

  lemma RunTwo(m: FileMap, ops: seq<Op>, m1: FileMap, m2: FileMap, rest: seq<Op>)
    requires |ops| >= 2 && rest == ops[2..]
    requires Good(m, ops[0]) && m1 == Meaning(m, ops[0]).0 && Good(m1, ops[1]) && m2 == Meaning(m1, ops[1]).0
    requires GoodRun(m2, rest)
    ensures GoodRun(m, ops) && RunMeaning(m, ops).0 == RunMeaning(m2, rest).0
  {
    assert ops[1..][0] == ops[1] && ops[1..][1..] == rest;
    assert GoodRun(m1, ops[1..]);
  }

  /**
   * 238 files of the largest size leave 39 of the 32645 blocks; a 239th file can still be created, but writing
   * that many bytes to it breaks the disk, although no other file changes.
   */
  lemma FullDisk(now: Times, typ: u32, data: seq<byte>, g: Garbage, g': Garbage) returns (d: Image)
    requires typ % 0x1_0000 != 0 && |data| == MAX_BYTES
    ensures Run(Format(now), Fill(1, 238, typ, now, data, g)).0 == Done(d) && Inv(d) && 239 in FilesOf(d)
    ensures !Inv(WriteFile(d, 239, data, g')) && FilesOf(WriteFile(d, 239, data, g')) - {239} == FilesOf(d) - {239}
  {
    var m := map[0 := File(1, [], now.atime, now.mtime, now.ctime)];
    assert Filled(m, 1, 0);
    FillRuns(m, 1, 238, typ, now, data, g);
    SystemRefines(now, Fill(1, 238, typ, now, data, g));
    d := Run(Format(now), Fill(1, 238, typ, now, data, g)).0.d;
    NoRoomLeft(d, data, g');
  }

  lemma NoRoomLeft(d: Image, data: seq<byte>, g: Garbage)
    requires Inv(d) && Filled(FilesOf(d), 240, 238) && |data| == MAX_BYTES
    ensures 239 in FilesOf(d) && !Inv(WriteFile(d, 239, data, g))
    ensures FilesOf(WriteFile(d, 239, data, g)) - {239} == FilesOf(d) - {239}
  {
    TooManyBlocks(d);
    NoRoomBreaks(d, 239, data, g);
    NoRoomIsolated(d, 239, data, g);
  }

  lemma TooManyBlocks(d: Image)
    requires Inv(d) && Filled(FilesOf(d), 240, 238)
    ensures 239 in FilesOf(d) && Live(Table(d), 239)
    ensures SizesFit(Table(d)[239].size, MAX_BYTES) && !HasRoom(d, Table(d)[239].size, MAX_BYTES)
  {
    assert 239 in FilesOf(d);
    FileEntry(d, 239);
    BlocksConserved(d);
    DemandFilled(FilesOf(d), 240, 238, INODE_NUM);
    LargestFile(|Used(d)|);
  }

  lemma LargestFile(used: nat)
    requires used == 137 * 238
    ensures SizesFit(0, MAX_BYTES) && used - SlotCount(0) + SlotCount(MAX_BYTES) > DATA_BLOCKS
  {
  }
}
