/** Failures that a caller can see: files that read back as something that was never written to them. */
module LostData {
  import opened Layout
  import opened DiskImage
  import opened Bitmap
  import opened InodeTable
  import opened FileOps
  import opened Ownership
  import opened Files
  import opened WriteLoop
  import opened WriteProof
  import opened ReadRemove
  import opened Conservation
  import opened Refinement
  import opened Counterexamples
  import opened Exhaustion

  // ---- writes of at most one block, on any disk -----------------------------------------------------------

  /** The record of inode i, all of whose pointers name blocks of the disk. */
  ghost predicate Has(d: Image, i: nat, x: Inode) {
    && i < INODE_NUM && x.typ != 0 && Table(d)[i] == x
    && forall k :: 0 <= k <= NDIRECT ==> x.blocks[k] < BLOCK_NUM
  }

  /** Writing no bytes frees whatever the pointers name, and keeps the pointers. */
  lemma WriteNothing(d: Image, i: nat, x: Inode, g: Garbage) returns (d': Image)
    requires Has(d, i, x)
    ensures d' == WriteFile(d, i, [], g)
    ensures Used(d') == Used(d) - Ids(x.blocks) && Table(d') == Table(d)[i := x.(size := 0)]
  {
    var d1 := FreeAllPointers(d, x, g);
    PutRefinesUpdate(d1, i, x.(size := 0));
    d' := PutInode(d1, i, x.(size := 0));
  }

  lemma FreeAllPointers(d: Image, x: Inode, g: Garbage) returns (d1: Image)
    requires forall k :: 0 <= k <= NDIRECT ==> x.blocks[k] < BLOCK_NUM
    ensures d1 == FinishWrite(WriteUpTo(StartWrite(d, x, g), [], ToInt(x.size), 0, g), 0, ToInt(x.size), g)
    ensures Used(d1) == Used(d) - Ids(x.blocks) && Table(d1) == Table(d)
  {
    var c := StartWrite(d, x, g);
    FreeAllFrame(d, x.blocks[..NDIRECT]);
    FinishCases(c, 0, ToInt(x.size), g);
    FreeRefinesRemove(c.d, x.blocks[NDIRECT]);
    d1 := FreeBlock(c.d, x.blocks[NDIRECT]);
    SameBlocksSameTable(c.d, d1);
    IdsSnoc(x.blocks[..NDIRECT], x.blocks[NDIRECT]);
    assert x.blocks[..NDIRECT] + [x.blocks[NDIRECT]] == x.blocks;
  }

  /** Writing up to one block, when the frees make block 123 available, takes block 123. */
  lemma WriteOneBlock(d: Image, i: nat, x: Inode, data: seq<byte>, g: Garbage) returns (d': Image)
    requires Has(d, i, x) && x.blocks[NDIRECT] == 0 && 0 < |data| <= BLOCK_SIZE
    requires Used(d) <= Ids(x.blocks[..NDIRECT])
    ensures d' == WriteFile(d, i, data, g)
    ensures Used(d') == {FIRST_DATA}
    ensures Table(d') == Table(d)[i := x.(size := |data|, blocks := x.blocks[0 := FIRST_DATA])]
    ensures d'[FIRST_DATA] == Chunk(data, 0, g.fill(0))
  {
    var c0 := StartWrite(d, x, g);
    FreeAllFrame(d, x.blocks[..NDIRECT]);
    var c := FirstChunk(c0, data, ToInt(x.size), g);
    var d1 := EndOneBlock(c, |data|, ToInt(x.size), g);
    d' := PutInode(d1, i, x.(size := |data|, blocks := c.blocks));
    PutRefinesUpdate(d1, i, x.(size := |data|, blocks := c.blocks));
  }

  /** After the loop, the null indirect pointer is freed. */
  lemma EndOneBlock(c: Cursor, s: nat, o: int, g: Garbage) returns (d1: Image)
    requires ValidCursor(c) && c.blocks[NDIRECT] == 0 && s <= BLOCK_SIZE
    ensures d1 == FinishWrite(c, s, o, g) && Used(d1) == Used(c.d) && Table(d1) == Table(c.d) && SameData(c.d, d1)
  {
    FinishCases(c, s, o, g);
    FreeRefinesRemove(c.d, 0);
    d1 := FreeBlock(c.d, 0);
    SameBlocksSameTable(c.d, d1);
  }

  lemma FirstChunk(c0: Cursor, data: seq<byte>, o: int, g: Garbage) returns (c: Cursor)
    requires ValidCursor(c0) && Used(c0.d) == {} && 0 < |data| <= BLOCK_SIZE
    ensures BlocksFor(|data|) == 1 && c == WriteUpTo(c0, data, o, 1, g)
    ensures Used(c.d) == {FIRST_DATA} && Table(c.d) == Table(c0.d)
    ensures c.blocks == c0.blocks[0 := FIRST_DATA] && c.d[FIRST_DATA] == Chunk(data, 0, g.fill(0))
  {
    var b := Chunk(data, 0, g.fill(0));
    FullMeansAllUsed(c0.d);
    var d', id := PlaceFrame(c0.d, b);
    LeastIsFirst(c0.d, b);
    c := Cursor(d', c0.blocks[0 := id], c0.final);
    assert WritesDirect(|data|, 0);
    UnfoldWrite(c0, data, o, 0, g, c0, c);
  }

  lemma LeastIsFirst(d: Image, b: Block)
    requires Used(d) == {}
    ensures PlaceFresh(d, b).1 == FIRST_DATA
  {
    AllocRefinesLeastFree(d);
    assert FIRST_DATA in DataIds() && FIRST_DATA !in Used(d);
    var id := AllocBlock(d).1;
    assert id != NO_BLOCK;
    assert FIRST_DATA < id ==> FIRST_DATA in Used(d);
  }

  lemma NextNumber(d: Image, n: nat)
    requires n < INODE_NUM && forall j :: 0 <= j <= n ==> (Table(d)[j].typ != 0 <==> j < n)
    ensures FreshInode(d) == n
  {
    FirstFreeInodeIsLeast(d, 0);
    var f := FirstFreeInode(d, 0);
    assert !Live(Table(d), n);
    assert f < n ==> Live(Table(d), f);
  }

  lemma CreateNext(d: Image, n: nat, typ: u32, now: Times) returns (d': Image)
    requires n < INODE_NUM && forall j :: 0 <= j <= n ==> (Table(d)[j].typ != 0 <==> j < n)
    ensures AllocInode(d, typ, now) == (d', n)
    ensures Table(d') == Table(d)[n := NewInode(typ, now)] && Used(d') == Used(d)
  {
    NextNumber(d, n);
    PutRefinesUpdate(d, n, NewInode(typ, now));
    d' := PutInode(d, n, NewInode(typ, now));
  }

  // ---- one byte, then none: a block with two owners -------------------------------------------------------

  /** Pointers of a file whose only block is 123. */
  function OnlyFirst(): seq<u32> {
    NULL_BLOCKS[0 := FIRST_DATA]
  }

  lemma OnlyFirstIds()
    ensures Ids(OnlyFirst()) == {0, FIRST_DATA} && Ids(OnlyFirst()[..NDIRECT]) == {0, FIRST_DATA}
    ensures Ids(NULL_BLOCKS[..NDIRECT]) == {0}
    ensures |OnlyFirst()| == NDIRECT + 1 && forall k :: 0 <= k <= NDIRECT ==> OnlyFirst()[k] < BLOCK_NUM
  {
    var b := OnlyFirst();
    assert b[0] == FIRST_DATA && b[1] == 0 && b[..NDIRECT][0] == FIRST_DATA && b[..NDIRECT][1] == 0;
    assert NULL_BLOCKS[..NDIRECT][0] == 0;
  }

  /** n files; file 0 is empty but still points at block 123. */
  ghost predicate Scene(t: seq<Inode>, n: nat, y: Inode) {
    && |t| == INODE_NUM && (forall j :: 0 <= j < INODE_NUM ==> (t[j].typ != 0 <==> j < n))
    && t[0] == y && y.typ != 0 && y.size == 0 && y.blocks == OnlyFirst()
  }

  lemma SceneGrows(t: seq<Inode>, n: nat, y: Inode, x: Inode)
    requires Scene(t, n, y) && 1 <= n < INODE_NUM && x.typ != 0
    ensures Scene(t[n := x], n + 1, y)
  {
  }

  lemma Truncate(d: Image, n: nat, y: Inode, g: Garbage) returns (d': Image)
    requires Scene(Table(d), n, y) && Used(d) <= {FIRST_DATA}
    ensures d' == WriteFile(d, 0, [], g) && Used(d') == {} && Table(d') == Table(d)
  {
    OnlyFirstIds();
    d' := WriteNothing(d, 0, y, g);
    assert Table(d)[0 := y] == Table(d);
  }

  /** The record of a file of s bytes in block 123. */
  function OneBlockInode(typ: u32, now: Times, s: u32): Inode {
    NewInode(typ, now).(size := s, blocks := OnlyFirst())
  }

  lemma AddFile(d: Image, n: nat, y: Inode, typ: u32, now: Times, data: seq<byte>, g: Garbage)
    returns (d1: Image, d2: Image)
    requires Scene(Table(d), n, y) && Used(d) == {} && 1 <= n < INODE_NUM
    requires typ % 0x1_0000 != 0 && 0 < |data| <= BLOCK_SIZE
    ensures AllocInode(d, typ, now) == (d1, n) && d2 == WriteFile(d1, n, data, g)
    ensures Used(d2) == {FIRST_DATA} && d2[FIRST_DATA] == Chunk(data, 0, g.fill(0))
    ensures Table(d2) == Table(d)[n := OneBlockInode(typ, now, |data|)]
  {
    d1 := CreateNext(d, n, typ, now);
    d2 := FillNew(d1, n, NewInode(typ, now), data, g);
    SetTwice(Table(d), n, NewInode(typ, now), OneBlockInode(typ, now, |data|));
  }

  lemma SetTwice(t: seq<Inode>, n: nat, x: Inode, y: Inode)
    requires n < |t|
    ensures t[n := x][n := y] == t[n := y]
  {
  }

  lemma FillNew(d: Image, n: nat, x: Inode, data: seq<byte>, g: Garbage) returns (d': Image)
    requires n < INODE_NUM && Table(d)[n] == x && x.typ != 0 && x.blocks == NULL_BLOCKS && Used(d) == {}
    requires 0 < |data| <= BLOCK_SIZE
    ensures d' == WriteFile(d, n, data, g)
    ensures Used(d') == {FIRST_DATA} && d'[FIRST_DATA] == Chunk(data, 0, g.fill(0))
    ensures Table(d') == Table(d)[n := x.(size := |data|, blocks := OnlyFirst())]
  {
    d' := WriteOneBlock(d, n, x, data, g);
  }

  /** The first two writes: one block for the root, then none. */
  lemma Setup(d: Image, x: Inode, a: seq<byte>, g: Garbage, g': Garbage) returns (d1: Image, d2: Image, y: Inode)
    requires 0 < |a| <= BLOCK_SIZE && Used(d) == {} && x.typ != 0 && x.blocks == NULL_BLOCKS && Table(d)[0] == x
    requires forall j :: 0 < j < INODE_NUM ==> Table(d)[j].typ == 0
    ensures d1 == WriteFile(d, 0, a, g) && d2 == WriteFile(d1, 0, [], g')
    ensures Scene(Table(d2), 1, y) && Used(d2) == {}
  {
    d1 := FillNew(d, 0, x, a, g);
    y := x.(size := 0, blocks := OnlyFirst());
    d2 := Emptied(d1, y.(size := |a|), g');
    SceneAfter(Table(d), Table(d1), y);
  }

  lemma Emptied(d: Image, x: Inode, g: Garbage) returns (d': Image)
    requires Table(d)[0] == x && x.typ != 0 && x.blocks == OnlyFirst() && Used(d) == {FIRST_DATA}
    ensures d' == WriteFile(d, 0, [], g) && Used(d') == {} && Table(d') == Table(d)[0 := x.(size := 0)]
  {
    OnlyFirstIds();
    d' := WriteNothing(d, 0, x, g);
  }

  lemma SceneAfter(t: seq<Inode>, t1: seq<Inode>, y: Inode)
    requires |t| == INODE_NUM && (forall j :: 0 < j < INODE_NUM ==> t[j].typ == 0)
    requires |t1| == INODE_NUM && (forall j :: 0 < j < INODE_NUM ==> t1[j] == t[j])
    requires y.typ != 0 && y.size == 0 && y.blocks == OnlyFirst()
    ensures Scene(t1[0 := y], 1, y)
  {
  }

  lemma OthersDead(now: Times)
    ensures forall j :: 0 < j < INODE_NUM ==> Table(Format(now))[j].typ == 0
  {
    FormatCorrect(now);
    forall j | 0 < j < INODE_NUM
      ensures Table(Format(now))[j].typ == 0
    {
      FileEntry(Format(now), j);
    }
  }

  /** The calls; g gives the contents of the buffers of each. */
  function Theft(typ: u32, now: Times, a: seq<byte>, b: seq<byte>, c: seq<byte>, g: nat -> Garbage): seq<Op> {
    [Write(0, a, g(0)), Write(0, [], g(1)),
     Create(typ, now), Write(1, b, g(3)), Write(0, [], g(4)),
     Create(typ, now), Write(2, c, g(6))]
  }

  lemma RunWrite(d: Image, ops: seq<Op>, k: nat, i: nat, data: seq<byte>, g: Garbage, d': Image)
    requires k < |ops| && ops[k] == Write(i, data, g) && d' == WriteFile(d, i, data, g)
    ensures Run(d, ops[k..]).0 == Run(d', ops[k + 1..]).0
  {
    assert ops[k..][1..] == ops[k + 1..];
  }

  lemma RunCreate(d: Image, ops: seq<Op>, k: nat, typ: u32, now: Times, d': Image)
    requires k < |ops| && ops[k] == Create(typ, now) && d' == AllocInode(d, typ, now).0
    ensures Run(d, ops[k..]).0 == Run(d', ops[k + 1..]).0
  {
    assert ops[k..][1..] == ops[k + 1..];
  }

  lemma TheftOnDisk(now: Times, typ: u32, a: seq<byte>, b: seq<byte>, c: seq<byte>, g: nat -> Garbage)
    returns (d: Image)
    requires typ % 0x1_0000 != 0 && 0 < |a| <= BLOCK_SIZE && 0 < |b| <= BLOCK_SIZE && 0 < |c| <= BLOCK_SIZE
    ensures Run(Format(now), Theft(typ, now, a, b, c, g)).0 == Done(d)
    ensures Table(d)[1] == OneBlockInode(typ, now, |b|) && d[FIRST_DATA] == Chunk(c, 0, g(6).fill(0))
  {
    Formatted(now);
    OthersDead(now);
    var ops := Theft(typ, now, a, b, c, g);
    assert ops[0..] == ops;
    d := TheftRun(Format(now), NewInode(1, now), ops, now, typ, a, b, c, g);
  }

  lemma TheftRun(d: Image, x: Inode, ops: seq<Op>, now: Times, typ: u32, a: seq<byte>, b: seq<byte>, c: seq<byte>,
                 g: nat -> Garbage) returns (d7: Image)
    requires typ % 0x1_0000 != 0 && 0 < |a| <= BLOCK_SIZE && 0 < |b| <= BLOCK_SIZE && 0 < |c| <= BLOCK_SIZE
    requires Used(d) == {} && x.typ != 0 && x.blocks == NULL_BLOCKS && Table(d)[0] == x
    requires forall j :: 0 < j < INODE_NUM ==> Table(d)[j].typ == 0
    requires ops == Theft(typ, now, a, b, c, g)
    ensures Run(d, ops[0..]).0 == Done(d7)
    ensures Table(d7)[1] == OneBlockInode(typ, now, |b|) && d7[FIRST_DATA] == Chunk(c, 0, g(6).fill(0))
  {
    var d5, y := TheftHalf(d, x, ops, now, typ, a, b, g(0), g(1), g(3), g(4));
    d7 := RunAddFile(d5, ops, 5, 2, y, typ, now, c, g(6));
    assert ops[7..] == [];
    RunNothing(d7);
  }

  lemma TheftHalf(d: Image, x: Inode, ops: seq<Op>, now: Times, typ: u32, a: seq<byte>, b: seq<byte>,
                  g0: Garbage, g1: Garbage, g3: Garbage, g4: Garbage) returns (d5: Image, y: Inode)
    requires typ % 0x1_0000 != 0 && 0 < |a| <= BLOCK_SIZE && 0 < |b| <= BLOCK_SIZE
    requires Used(d) == {} && x.typ != 0 && x.blocks == NULL_BLOCKS && Table(d)[0] == x
    requires forall j :: 0 < j < INODE_NUM ==> Table(d)[j].typ == 0
    requires |ops| == 7 && ops[0] == Write(0, a, g0) && ops[1] == Write(0, [], g1)
    requires ops[2] == Create(typ, now) && ops[3] == Write(1, b, g3) && ops[4] == Write(0, [], g4)
    ensures Run(d, ops[0..]).0 == Run(d5, ops[5..]).0 && Used(d5) == {}
    ensures Scene(Table(d5), 2, y) && Table(d5)[1] == OneBlockInode(typ, now, |b|)
  {
    var d2;
    d2, y := RunSetup(d, x, ops, a, g0, g1);
    d5 := RunAddTruncate(d2, ops, y, typ, now, b, g3, g4);
  }

  lemma RunAddTruncate(d: Image, ops: seq<Op>, y: Inode, typ: u32, now: Times, b: seq<byte>, g3: Garbage, g4: Garbage)
    returns (d5: Image)
    requires Scene(Table(d), 1, y) && Used(d) == {} && typ % 0x1_0000 != 0 && 0 < |b| <= BLOCK_SIZE && |ops| == 7
    requires ops[2] == Create(typ, now) && ops[3] == Write(1, b, g3) && ops[4] == Write(0, [], g4)
    ensures Run(d, ops[2..]).0 == Run(d5, ops[5..]).0 && Used(d5) == {}
    ensures Scene(Table(d5), 2, y) && Table(d5)[1] == OneBlockInode(typ, now, |b|)
  {
    var d4 := RunAddFile(d, ops, 2, 1, y, typ, now, b, g3);
    SceneGrows(Table(d), 1, y, OneBlockInode(typ, now, |b|));
    d5 := RunTruncate(d4, ops, 2, y, g4);
  }

  lemma RunNothing(d: Image)
    ensures Run(d, []).0 == Done(d)
  {
  }

  lemma RunSetup(d: Image, x: Inode, ops: seq<Op>, a: seq<byte>, g: Garbage, g': Garbage) returns (d2: Image, y: Inode)
    requires 0 < |a| <= BLOCK_SIZE && Used(d) == {} && x.typ != 0 && x.blocks == NULL_BLOCKS && Table(d)[0] == x
    requires forall j :: 0 < j < INODE_NUM ==> Table(d)[j].typ == 0
    requires |ops| >= 2 && ops[0] == Write(0, a, g) && ops[1] == Write(0, [], g')
    ensures Run(d, ops[0..]).0 == Run(d2, ops[2..]).0 && Scene(Table(d2), 1, y) && Used(d2) == {}
  {
    var d1;
    d1, d2, y := Setup(d, x, a, g, g');
    RunWrite(d, ops, 0, 0, a, g, d1);
    RunWrite(d1, ops, 1, 0, [], g', d2);
  }

  lemma RunAddFile(d: Image, ops: seq<Op>, k: nat, n: nat, y: Inode, typ: u32, now: Times, data: seq<byte>, g: Garbage)
    returns (d2: Image)
    requires Scene(Table(d), n, y) && Used(d) == {} && 1 <= n < INODE_NUM
    requires typ % 0x1_0000 != 0 && 0 < |data| <= BLOCK_SIZE
    requires k + 1 < |ops| && ops[k] == Create(typ, now) && ops[k + 1] == Write(n, data, g)
    ensures Run(d, ops[k..]).0 == Run(d2, ops[k + 2..]).0
    ensures Used(d2) == {FIRST_DATA} && d2[FIRST_DATA] == Chunk(data, 0, g.fill(0))
    ensures Table(d2) == Table(d)[n := OneBlockInode(typ, now, |data|)]
  {
    var d1;
    d1, d2 := AddFile(d, n, y, typ, now, data, g);
    RunCreate(d, ops, k, typ, now, d1);
    RunWrite(d1, ops, k + 1, n, data, g, d2);
  }

  lemma RunTruncate(d: Image, ops: seq<Op>, n: nat, y: Inode, g: Garbage) returns (d': Image)
    requires Scene(Table(d), n, y) && Used(d) <= {FIRST_DATA} && |ops| > 4 && ops[4] == Write(0, [], g)
    ensures Run(d, ops[4..]).0 == Run(d', ops[5..]).0 && Used(d') == {} && Table(d') == Table(d)
  {
    d' := Truncate(d, n, y, g);
    RunWrite(d, ops, 4, 0, [], g, d');
  }

  lemma ReadFirstBlock(d: Image, i: nat, x: Inode, c: seq<byte>, fill: Block, now: u32, g: Garbage)
    requires i < INODE_NUM && Table(d)[i] == x && x.typ != 0 && x.size == |c| && 0 < |c| <= BLOCK_SIZE
    requires x.blocks[0] == FIRST_DATA && d[FIRST_DATA] == Chunk(c, 0, fill)
    ensures ReadFile(d, i, now, g).1 == Contents(|c|, c)
  {
    var x' := x.(atime := now);
    var d' := PutInode(d, i, x');
    PutRefinesUpdate(d, i, x');
    var ind := Fetch(d', x.blocks[NDIRECT], g.unread(0));
    assert BlocksFor(|c|) == 1;
    ReadOne(d', x', ind, c, fill, g);
  }

  lemma ReadOne(d: Image, x: Inode, ind: Block, c: seq<byte>, fill: Block, g: Garbage)
    requires x.size == |c| && 0 < |c| <= BLOCK_SIZE && x.blocks[0] == FIRST_DATA && d[FIRST_DATA] == Chunk(c, 0, fill)
    ensures BlocksFor(ToInt(x.size)) == 1 && ReadUpTo(d, x, ind, 1, g) == c
  {
    assert ReadUpTo(d, x, ind, 0, g) == [];
    assert ReadUpTo(d, x, ind, 1, g) == [] + ReadStep(d, x, ind, 0, g);
    assert Chunk(c, 0, fill)[..|c|] == c;
  }

  // ---- the same calls on the map of files -----------------------------------------------------------------

  /** k files of at most one block each. */
  ghost predicate Small(m: FileMap, k: nat) {
    Numbered(m, k) && k <= INODE_NUM && forall j :: j in m ==> |m[j].bytes| <= BLOCK_SIZE
  }

  lemma {:induction false} SmallDemand(m: FileMap, k: nat, n: nat)
    requires Small(m, k)
    ensures Demand(m, n) <= n
    decreases n
  {
    if n > 0 {
      SmallDemand(m, k, n - 1);
    }
  }

  lemma SmallWrite(m: FileMap, k: nat, i: nat, data: seq<byte>, g: Garbage) returns (m': FileMap)
    requires Small(m, k) && i < k && |data| <= BLOCK_SIZE
    ensures m' == m[i := m[i].(bytes := data)] && m' == Meaning(m, Write(i, data, g)).0 && Small(m', k)
    ensures data != [] || m[i].bytes == [] ==> Good(m, Write(i, data, g))
  {
    assert i in m;
    SmallDemand(m, k, INODE_NUM);
    m' := m[i := m[i].(bytes := data)];
  }

  lemma SmallCreate(m: FileMap, k: nat, typ: u32, now: Times) returns (m': FileMap)
    requires Small(m, k) && k < INODE_NUM && typ % 0x1_0000 != 0
    ensures m' == m[k := File(typ % 0x1_0000, [], now.atime, now.mtime, now.ctime)]
    ensures m' == Meaning(m, Create(typ, now)).0 && Small(m', k + 1) && Good(m, Create(typ, now))
  {
    CreateNumbered(m, k, typ, now);
    m' := Meaning(m, Create(typ, now)).0;
  }

  lemma MeaningFrom(m: FileMap, ops: seq<Op>, k: nat)
    requires k < |ops|
    ensures RunMeaning(m, ops[k..]).0 == RunMeaning(Meaning(m, ops[k]).0, ops[k + 1..]).0
    ensures GoodRun(m, ops[k..]) <==> Good(m, ops[k]) && GoodRun(Meaning(m, ops[k]).0, ops[k + 1..])
  {
    assert ops[k..][1..] == ops[k + 1..];
  }

  lemma {:induction false} MeaningTail(ops: seq<Op>, ms: seq<FileMap>, k: nat)
    requires |ms| == |ops| + 1 && k <= |ops|
    requires forall j :: k <= j < |ops| ==> Good(ms[j], ops[j]) && ms[j + 1] == Meaning(ms[j], ops[j]).0
    ensures RunMeaning(ms[k], ops[k..]).0 == ms[|ops|] && GoodRun(ms[k], ops[k..])
    decreases |ops| - k
  {
    if k < |ops| {
      MeaningFrom(ms[k], ops, k);
      MeaningTail(ops, ms, k + 1);
    }
  }

  /** The maps before and after each call; every call but the second is good. */
  lemma TheftOnMap(now: Times, typ: u32, a: seq<byte>, b: seq<byte>, c: seq<byte>, g: nat -> Garbage)
    returns (ms: seq<FileMap>)
    requires typ % 0x1_0000 != 0 && 0 < |a| <= BLOCK_SIZE && 0 < |b| <= BLOCK_SIZE && 0 < |c| <= BLOCK_SIZE
    ensures var ops := Theft(typ, now, a, b, c, g);
            && |ms| == 8 && ms[0] == map[0 := File(1, [], now.atime, now.mtime, now.ctime)]
            && (forall j :: 0 <= j < 7 ==> ms[j + 1] == Meaning(ms[j], ops[j]).0)
            && (forall j :: 0 <= j < 7 && j != 1 ==> Good(ms[j], ops[j]))
    ensures 1 in ms[7] && ms[7][1].bytes == b
  {
    var m0 := map[0 := File(1, [], now.atime, now.mtime, now.ctime)];
    assert Small(m0, 1);
    var m1 := SmallWrite(m0, 1, 0, a, g(0));
    var m2 := SmallWrite(m1, 1, 0, [], g(1));
    var m3 := SmallCreate(m2, 1, typ, now);
    var m4 := SmallWrite(m3, 2, 1, b, g(3));
    var m5 := SmallWrite(m4, 2, 0, [], g(4));
    var m6 := SmallCreate(m5, 2, typ, now);
    var m7 := SmallWrite(m6, 3, 2, c, g(6));
    ms := [m0, m1, m2, m3, m4, m5, m6, m7];
  }

  /**
   * A file that reads back as another one.  The root is written and emptied, which leaves its pointer behind.
   * Everything after that is good as far as the files go: file 1 is created and written, the root is emptied
   * again, file 2 is created and written.  File 1 should hold b; the disk answers c.
   */
  lemma StolenBlock(now: Times, typ: u32, a: seq<byte>, b: seq<byte>, c: seq<byte>, g: nat -> Garbage,
                    now': u32, g': Garbage) returns (d: Image, m2: FileMap, m: FileMap)
    requires typ % 0x1_0000 != 0 && 0 < |a| <= BLOCK_SIZE && 0 < |b| == |c| <= BLOCK_SIZE
    ensures Run(Format(now), Theft(typ, now, a, b, c, g)).0 == Done(d)
    ensures ReadFile(d, 1, now', g').1 == Contents(|c|, c)
    ensures RunMeaning(map[0 := File(1, [], now.atime, now.mtime, now.ctime)], Theft(typ, now, a, b, c, g)).0 == m
    ensures 1 in m && m[1].bytes == b
    ensures m2 == RunMeaning(map[0 := File(1, [], now.atime, now.mtime, now.ctime)],
                             [Write(0, a, g(0)), Write(0, [], g(1))]).0
    ensures GoodRun(m2, Theft(typ, now, a, b, c, g)[2..])
  {
    d := TheftOnDisk(now, typ, a, b, c, g);
    ReadFirstBlock(d, 1, Table(d)[1], c, g(6).fill(0), now', g');
    var ms := TheftOnMap(now, typ, a, b, c, g);
    m2, m := ms[2], ms[7];
    TheftMeaning(Theft(typ, now, a, b, c, g), ms);
    TwoMeanings(ms[0], Write(0, a, g(0)), Write(0, [], g(1)), ms[1], ms[2]);
  }

  lemma TheftMeaning(ops: seq<Op>, ms: seq<FileMap>)
    requires |ops| == 7 && |ms| == 8
    requires forall j :: 0 <= j < 7 ==> ms[j + 1] == Meaning(ms[j], ops[j]).0
    requires forall j :: 0 <= j < 7 && j != 1 ==> Good(ms[j], ops[j])
    ensures RunMeaning(ms[0], ops).0 == ms[7] && GoodRun(ms[2], ops[2..])
  {
    MeaningTail(ops, ms, 2);
    MeaningFrom(ms[0], ops, 0);
    MeaningFrom(ms[1], ops, 1);
    assert ops[0..] == ops;
  }

  lemma TwoMeanings(m: FileMap, p: Op, q: Op, m1: FileMap, m2: FileMap)
    requires m1 == Meaning(m, p).0 && m2 == Meaning(m1, q).0
    ensures RunMeaning(m, [p, q]).0 == m2
  {
    assert [p, q][1..] == [q] && [q][1..] == [];
    assert RunMeaning(m2, []).0 == m2;
    assert RunMeaning(m1, [q]).0 == m2;
  }

  // ---- 4097 bytes: the last byte is read from the wrong block ---------------------------------------------

  /** k blocks were taken from an empty disk, 123 first, and the blocks after them are untouched. */
  ghost predicate Taken(c0: Cursor, c: Cursor, k: nat) {
    && ValidCursor(c) && Used(c.d) == Interval(FIRST_DATA, FIRST_DATA + k) && Table(c.d) == Table(c0.d)
    && forall b :: FIRST_DATA + k <= b < BLOCK_NUM ==> c.d[b] == c0.d[b]
  }

  lemma IntervalGrows(lo: nat, hi: nat)
    requires lo <= hi
    ensures Interval(lo, hi) + {hi} == Interval(lo, hi + 1) && hi !in Interval(lo, hi) && |Interval(lo, hi)| == hi - lo
  {
    IntervalSize(lo, hi);
  }

  /** The least free block of a disk whose first k data blocks are taken. */
  lemma NextIsFree(d: Image, k: nat, b: Block)
    requires Used(d) == Interval(FIRST_DATA, FIRST_DATA + k) && k < 9
    ensures PlaceFresh(d, b).1 == FIRST_DATA + k
  {
    assert forall j: nat :: j in Used(d) <==> FIRST_DATA <= j < FIRST_DATA + k;
    assert FIRST_DATA + k in DataIds() && FIRST_DATA + k !in Used(d);
    AllocRefinesLeastFree(d);
    assert FIRST_DATA + k < AllocBlock(d).1 ==> FIRST_DATA + k in Used(d);
  }

  lemma TakeNext(d: Image, k: nat, b: Block) returns (d': Image)
    requires Used(d) == Interval(FIRST_DATA, FIRST_DATA + k) && k < 9
    ensures PlaceFresh(d, b) == (d', FIRST_DATA + k)
    ensures Used(d') == Interval(FIRST_DATA, FIRST_DATA + k + 1) && Table(d') == Table(d)
    ensures d'[FIRST_DATA + k] == b && OnlyBlock(d, d', FIRST_DATA + k)
  {
    IntervalGrows(FIRST_DATA, FIRST_DATA + k);
    NextIsFree(d, k, b);
    var id;
    d', id := PlaceFrame(d, b);
  }

  lemma TakeStep(c0: Cursor, c: Cursor, data: seq<byte>, o: int, k: nat, g: Garbage) returns (c': Cursor)
    requires Taken(c0, c, k) && Misplaced(|data|) && k < 9
    ensures BlocksFor(|data|) == 9 && c' == WriteStep(c, data, o, k, g) && Taken(c0, c', k + 1)
    ensures c'.blocks[k] == FIRST_DATA + k && c'.d[FIRST_DATA + k] == Chunk(data, k, g.fill(k))
  {
    assert WritesDirect(|data|, k);
    var d' := TakeNext(c.d, k, Chunk(data, k, g.fill(k)));
    c' := Cursor(d', c.blocks[k := FIRST_DATA + k], c.final);
  }

  lemma {:induction false} TakeUpTo(c0: Cursor, data: seq<byte>, o: int, k: nat, g: Garbage) returns (c: Cursor)
    requires ValidCursor(c0) && Used(c0.d) == {} && Misplaced(|data|) && k <= 9
    ensures BlocksFor(|data|) == 9 && c == WriteUpTo(c0, data, o, k, g) && Taken(c0, c, k)
    ensures k > 0 ==>
              c.blocks[k - 1] == FIRST_DATA + k - 1 && c.d[FIRST_DATA + k - 1] == Chunk(data, k - 1, g.fill(k - 1))
    decreases k
  {
    if k == 0 {
      c := c0;
      assert Interval(FIRST_DATA, FIRST_DATA) == {};
    } else {
      var j := k - 1;
      assert j + 1 == k;
      var c1 := TakeUpTo(c0, data, o, j, g);
      c := TakeStep(c0, c1, data, o, j, g);
      UnfoldWrite(c0, data, o, j, g, c1, c);
    }
  }

  /** The disk after the write: the ninth pointer names the ninth data block, where the reader looks for pointers. */
  lemma NinthWritten(d: Image, x: Inode, data: seq<byte>, g: Garbage) returns (d': Image)
    requires Used(d) == {} && Table(d)[0] == x && x.typ != 0 && x.blocks == NULL_BLOCKS && |data| == 4097
    ensures d' == WriteFile(d, 0, data, g) && Table(d')[0].typ != 0 && Table(d')[0].size == 4097
    ensures Table(d')[0].blocks[NDIRECT] == 131 && d'[131] == Chunk(data, 8, g.fill(8))
    ensures forall b :: 132 <= b < BLOCK_NUM ==> d'[b] == d[b]
  {
    var c := NinthPlaced(d, x, data, g);
    FinishCases(c, |data|, ToInt(x.size), g);
    var x' := x.(size := 4097, blocks := c.blocks);
    PutRefinesUpdate(c.d, 0, x');
    d' := PutInode(c.d, 0, x');
  }

  lemma NinthPlaced(d: Image, x: Inode, data: seq<byte>, g: Garbage) returns (c: Cursor)
    requires Used(d) == {} && x.blocks == NULL_BLOCKS && |data| == 4097
    ensures BlocksFor(|data|) == 9 && c == WriteUpTo(StartWrite(d, x, g), data, ToInt(x.size), 9, g) && ValidCursor(c)
    ensures Table(c.d) == Table(d) && c.blocks[NDIRECT] == 131 && c.d[131] == Chunk(data, 8, g.fill(8))
    ensures forall b :: 132 <= b < BLOCK_NUM ==> c.d[b] == d[b]
  {
    OnlyFirstIds();
    FreeAllFrame(d, x.blocks[..NDIRECT]);
    c := TakeUpTo(StartWrite(d, x, g), data, ToInt(x.size), 9, g);
  }

  lemma {:induction false} ReadLength(d: Image, x: Inode, ind: Block, k: nat, g: Garbage)
    requires x.size == 4097 && k <= 8
    ensures |ReadUpTo(d, x, ind, k, g)| == BLOCK_SIZE * k
    decreases k
  {
    if k > 0 {
      ReadLength(d, x, ind, k - 1, g);
    }
  }

  lemma NinthRead(d: Image, data: seq<byte>, fill: Block, now: u32, g: Garbage) returns (bytes: seq<byte>)
    requires var x := Table(d)[0]; x.typ != 0 && x.size == 4097 && x.blocks[NDIRECT] == 131
    requires |data| == 4097 && data[4096] >= 132 && fill == ZeroBlock() && d[131] == Chunk(data, 8, fill)
    requires d[data[4096]] == ZeroBlock()
    ensures ReadFile(d, 0, now, g).1 == Contents(4097, bytes) && |bytes| == 4097 && bytes[4096] == 0
  {
    var x := Table(d)[0].(atime := now);
    var d' := PutInode(d, 0, x);
    PutRefinesUpdate(d, 0, x);
    var ind := Fetch(d', 131, g.unread(0));
    StrayWord(data, fill);
    bytes := LastByte(d', x, ind, data[4096], g);
  }

  /** The first word of the ninth data block. */
  lemma StrayWord(data: seq<byte>, fill: Block)
    requires |data| == 4097 && fill == ZeroBlock()
    ensures BlocksFor(|data|) == 9 && Word(Chunk(data, 8, fill), 0) == data[4096]
  {
    var b := Chunk(data, 8, fill);
    assert b[0] == data[4096] && b[1] == 0 && b[2] == 0 && b[3] == 0;
  }

  lemma LastByte(d: Image, x: Inode, ind: Block, v: byte, g: Garbage) returns (bytes: seq<byte>)
    requires x.size == 4097 && Word(ind, 0) == v && d[v] == ZeroBlock()
    ensures BlocksFor(ToInt(x.size)) == 9 && bytes == ReadUpTo(d, x, ind, 9, g) && |bytes| == 4097 && bytes[4096] == 0
  {
    ReadLength(d, x, ind, 8, g);
    var last := ReadStep(d, x, ind, 8, g);
    assert last == [0];
    bytes := ReadUpTo(d, x, ind, 8, g) + last;
  }

  /** Written to the root of a formatted disk, 4097 bytes that end in v >= 132 read back with 0 at the end. */
  lemma NinthByteLost(now: Times, data: seq<byte>, g: Garbage, now': u32, g': Garbage) returns (bytes: seq<byte>)
    requires |data| == 4097 && data[4096] >= 132 && g.fill(8) == ZeroBlock()
    ensures ReadFile(WriteFile(Format(now), 0, data, g), 0, now', g').1 == Contents(4097, bytes)
    ensures |bytes| == 4097 && bytes[4096] == 0 != data[4096]
  {
    Formatted(now);
    FreshBlock(now, data[4096]);
    var d := NinthWritten(Format(now), NewInode(1, now), data, g);
    bytes := NinthRead(d, data, g.fill(8), now', g');
  }

  lemma FreshBlock(now: Times, b: nat)
    requires FIRST_DATA <= b < BLOCK_NUM
    ensures Format(now)[b] == ZeroBlock()
  {
    FormatCorrect(now);
    PutRefinesUpdate(ZeroImage(), 0, NewInode(1, now));
  }
}
