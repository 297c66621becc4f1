/**
 * Small ways to leave the good domain, starting from a freshly formatted disk and its root inode 0: for each there
 * are buffer contents for which the code breaks the disk it has itself produced.
 */
module Counterexamples {
  import opened DiskImage
  import opened Bitmap
  import opened InodeTable
  import opened FileOps
  import opened Ownership
  import opened WriteLoop
  import opened WriteProof
  import opened ReadRemove
  import opened Refinement
  import opened Exactness
  import opened RemoveExactness
  import opened Twins

  lemma Formatted(now: Times)
    ensures Inv(Format(now)) && Used(Format(now)) == {}
    ensures Live(Table(Format(now)), 0) && Table(Format(now))[0] == NewInode(1, now)
  {
    FormatCorrect(now);
    ZeroImageConsistent();
    PutRefinesUpdate(ZeroImage(), 0, NewInode(1, now));
  }

  /** The same, without a word on how the disk was made. */
  lemma Fresh(now: Times) returns (d: Image)
    ensures d == Format(now) && Inv(d) && Used(d) == {}
    ensures Live(Table(d), 0) && Table(d)[0].size == 0 && Table(d)[0].typ == 1
  {
    Formatted(now);
    d := Format(now);
  }

  /** Any size that fits can be written to an empty file of an empty disk. */
  lemma RoomAtFirst(now: Times, s: nat)
    requires SizesFit(0, s)
    ensures Inv(Format(now)) && Live(Table(Format(now)), 0) && GoodWrite(Format(now), 0, s)
    ensures Table(Format(now))[0].typ == 1
  {
    var d := Fresh(now);
    RoomWhenEmpty(d, s);
  }

  lemma RoomWhenEmpty(d: Image, s: nat)
    requires SizesFit(0, s) && Used(d) == {} && Table(d)[0].size == 0
    ensures GoodWrite(d, 0, s)
  {
  }

  /** 4097 bytes: the ninth block is written as if it were direct. */
  lemma NinthBlock(now: Times, data: seq<byte>, g: Garbage)
    requires |data| == 4097
    ensures !Inv(WriteFile(Format(now), 0, data, g))
  {
    Formatted(now);
    MisplacedBreaks(Format(now), 0, data, g);
  }

  /** One byte, then none: the direct pointer survives although its block is free. */
  lemma DirectShrink(now: Times, first: seq<byte>, g: Garbage, g': Garbage)
    requires |first| == 1
    ensures !Inv(WriteFile(WriteFile(Format(now), 0, first, g), 0, [], g'))
  {
    RoomAtFirst(now, 1);
    var d := WrittenDisk(Format(now), 0, first, g);
    StaleBreaks(d, 0, [], g');
  }

  /** 4608 bytes, then 4096: all direct blocks are kept, but the pointer to the indirect block survives. */
  lemma LeaveIndirect(now: Times, first: seq<byte>, second: seq<byte>, g: Garbage, g': Garbage)
    requires |first| == 4608 && |second| == 4096
    ensures !Inv(WriteFile(WriteFile(Format(now), 0, first, g), 0, second, g'))
  {
    BadSizes();
    RoomAtFirst(now, 4608);
    var d := WrittenDisk(Format(now), 0, first, g);
    LosesIndirect(d, second, g');
  }

  lemma LosesIndirect(d: Image, second: seq<byte>, g: Garbage)
    requires Inv(d) && Live(Table(d), 0) && Table(d)[0].size == 4608 && |second| == 4096
    ensures !Inv(WriteFile(d, 0, second, g))
  {
    assert BlocksFor(4608) == 9 && BlocksFor(4096) == 8;
    StaleBreaks(d, 0, second, g);
  }

  lemma BadSizes()
    ensures SizesFit(0, 5120) && !SizesFit(5120, 4609) && !SizesFit(5120, 5121)
    ensures SizesFit(0, 4608) && !GoodRemove(4608)
  {
  }

  /** 5120 bytes, then 4609: the trailing loop frees one entry although the block count stays the same. */
  lemma ShortShrink(now: Times, first: seq<byte>, second: seq<byte>) returns (g: Garbage, g': Garbage)
    requires |first| == 5120 && |second| == 4609
    ensures !Inv(WriteFile(WriteFile(Format(now), 0, first, g), 0, second, g'))
  {
    BadSizes();
    RoomAtFirst(now, 5120);
    g, g' := SecondFails(Format(now), first, second);
  }

  /** 5120 bytes, then 5121: the eleventh block is taken to be there already. */
  lemma ShortGrowth(now: Times, first: seq<byte>, second: seq<byte>) returns (g: Garbage, g': Garbage)
    requires |first| == 5120 && |second| == 5121
    ensures !Inv(WriteFile(WriteFile(Format(now), 0, first, g), 0, second, g'))
  {
    BadSizes();
    RoomAtFirst(now, 5120);
    g, g' := SecondFails(Format(now), first, second);
  }

  /** 4608 bytes, then remove: the second indirect entry, never written, is freed too. */
  lemma FullBlocksRemove(now: Times, data: seq<byte>) returns (g: Garbage, g': Garbage)
    requires |data| == 4608
    ensures !RemoveWorks(WriteFile(Format(now), 0, data, g), 0, g')
  {
    BadSizes();
    RoomAtFirst(now, 4608);
    g, g' := RemoveFails(Format(now), data);
  }

  lemma SecondFails(d: Image, first: seq<byte>, second: seq<byte>) returns (g: Garbage, g': Garbage)
    requires Inv(d) && Live(Table(d), 0) && GoodWrite(d, 0, |first|)
    requires |second| <= 69632 && !SizesFit(|first|, |second|)
    ensures !Inv(WriteFile(WriteFile(d, 0, first, g), 0, second, g'))
  {
    g, g' := SecondWriteFails(d, 0, first, second);
  }

  lemma RemoveFails(d: Image, data: seq<byte>) returns (g: Garbage, g': Garbage)
    requires Inv(d) && Live(Table(d), 0) && GoodWrite(d, 0, |data|) && !GoodRemove(|data|) && Table(d)[0].typ == 1
    ensures !RemoveWorks(WriteFile(d, 0, data, g), 0, g')
  {
    RootHasOneBit();
    g, g' := RemoveAfterWriteFails(d, 0, data);
  }

  lemma RootHasOneBit()
    ensures OneBit(1)
  {
    assert 1 as bv8 == Mask(0);
    assert OneBitByte(1);
  }
}
