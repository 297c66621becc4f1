/** The packed inode table: get_inode and put_inode on disk images. */
module InodeTable {
  import opened Layout
  import opened DiskImage
  import opened Bitmap

  type u16 = x: nat | x < 0x1_0000

  /** struct inode.  `pad` is the padding that follows the 16-bit type; a struct copy carries it along. */
  datatype InodeRecord = InodeRecord(
    typ: u16, pad: u16, size: u32, atime: u32, mtime: u32, ctime: u32, blocks: seq<u32>)

  const NULL_BLOCKS: seq<u32> := [0, 0, 0, 0, 0, 0, 0, 0, 0]

  type Inode = x: InodeRecord | |x.blocks| == NDIRECT + 1
    witness InodeRecord(0, 0, 0, 0, 0, 0, NULL_BLOCKS)

  datatype Option<+T> = None | Some(value: T)

  /** Position, in words, of inode i in its block. */
  function InodeWord(i: nat): (w: nat)
    ensures w + INODE_WORDS <= NINDIRECT
  {
    i % INODES_PER_BLOCK * INODE_WORDS
  }

  function InodeWords(x: Inode): (ws: seq<u32>)
    ensures |ws| == INODE_WORDS
  {
    [x.typ + 0x1_0000 * x.pad, x.size, x.atime, x.mtime, x.ctime] + x.blocks
  }

  function InodeOfWords(ws: seq<u32>): Inode
    requires |ws| == INODE_WORDS
  {
    InodeRecord(ws[0] % 0x1_0000, ws[0] / 0x1_0000, ws[1], ws[2], ws[3], ws[4], ws[5..])
  }

  lemma InodeWordsRoundTrip(x: Inode)
    ensures InodeOfWords(InodeWords(x)) == x
  {
    assert InodeWords(x)[5..] == x.blocks;
  }

  function GetWords(b: Block, w: nat): (ws: seq<u32>)
    requires w + INODE_WORDS <= NINDIRECT
    ensures |ws| == INODE_WORDS && forall f :: 0 <= f < INODE_WORDS ==> ws[f] == Word(b, w + f)
  {
    seq<u32>(INODE_WORDS, f requires 0 <= f < INODE_WORDS => Word(b, w + f))
  }

  function SetWords(b: Block, w: nat, ws: seq<u32>): Block
    requires w + |ws| <= NINDIRECT
    decreases |ws|
  {
    if ws == [] then b else SetWords(SetWord(b, w, ws[0]), w + 1, ws[1..])
  }

  /** The record stored for inode i, live or not. */
  function InodeAt(d: Image, i: nat): Inode
    requires i < INODE_NUM
  {
    InodeOfWords(GetWords(d[InodeBlock(i)], InodeWord(i)))
  }

  /** get_inode: an inode whose type is 0, or whose number is out of range, does not exist. */
  function GetInode(d: Image, i: nat): Option<Inode> {
    if i < INODE_NUM && InodeAt(d, i).typ != 0 then Some(InodeAt(d, i)) else None
  }

  /** put_inode: a read-modify-write of the table block; an out-of-range number changes nothing. */
  function PutInode(d: Image, i: nat, x: Inode): Image {
    if i < INODE_NUM
    then d[InodeBlock(i) := SetWords(d[InodeBlock(i)], InodeWord(i), InodeWords(x))]
    else d
  }

  lemma {:induction false} WordOfSetWords(b: Block, w: nat, ws: seq<u32>, v: nat)
    requires w + |ws| <= NINDIRECT && v < NINDIRECT
    ensures Word(SetWords(b, w, ws), v) == if w <= v < w + |ws| then ws[v - w] else Word(b, v)
    decreases |ws|
  {
    if ws == [] {
    } else {
      WordOfSetWords(SetWord(b, w, ws[0]), w + 1, ws[1..], v);
      WordOfSetWord(b, w, ws[0], v);
    }
  }

  /** Field f of struct inode, in the order of its declaration; the type shares its word with two bytes of padding. */
  function Field(x: Inode, f: nat): u32
    requires f < INODE_WORDS
  {
    if f == 0 then x.typ + 0x1_0000 * x.pad
    else if f == 1 then x.size
    else if f == 2 then x.atime
    else if f == 3 then x.mtime
    else if f == 4 then x.ctime
    else x.blocks[f - 5]
  }

  /**
   * Where put_inode stores a record, field by field: inode i is record i % 9 of block 9 + i / 9.  No other word of
   * that block and no other block changes, and a number out of range changes nothing.
   */
  lemma RecordLayout(d: Image, i: nat, x: Inode, b: nat, v: nat)
    requires b < BLOCK_NUM && v < NINDIRECT
    ensures Word(PutInode(d, i, x)[b], v) ==
            if i < 1024 && b == 9 + i / 9 && 14 * (i % 9) <= v < 14 * (i % 9) + 14 then Field(x, v - 14 * (i % 9))
            else Word(d[b], v)
  {
    if i < INODE_NUM {
      WordOfSetWords(d[InodeBlock(i)], InodeWord(i), InodeWords(x), v);
    }
  }

  /** Two records of one block either coincide or do not overlap. */
  lemma RecordsDisjoint(i: nat, j: nat)
    requires i < INODE_NUM && j < INODE_NUM && InodeBlock(i) == InodeBlock(j)
    ensures i == j || InodeWord(i) + INODE_WORDS <= InodeWord(j) || InodeWord(j) + INODE_WORDS <= InodeWord(i)
  {
    if i % INODES_PER_BLOCK == j % INODES_PER_BLOCK {
      InodePlaceInjective(i, j);
    }
  }

  lemma RecordAfterSet(b: Block, w: nat, ws: seq<u32>, v: nat)
    requires |ws| == INODE_WORDS && w + INODE_WORDS <= NINDIRECT && v + INODE_WORDS <= NINDIRECT
    requires w == v || w + INODE_WORDS <= v || v + INODE_WORDS <= w
    ensures GetWords(SetWords(b, w, ws), v) == if w == v then ws else GetWords(b, v)
  {
    var b' := SetWords(b, w, ws);
    forall f | 0 <= f < INODE_WORDS
      ensures GetWords(b', v)[f] == if w == v then ws[f] else GetWords(b, v)[f]
    {
      WordOfSetWords(b, w, ws, v + f);
    }
  }

  /** put_inode then get_inode, at the level of stored records: only record i changes, and it becomes x. */
  lemma PutThenAt(d: Image, i: nat, x: Inode, j: nat)
    requires i < INODE_NUM && j < INODE_NUM
    ensures InodeAt(PutInode(d, i, x), j) == if i == j then x else InodeAt(d, j)
  {
    if InodeBlock(i) != InodeBlock(j) {
      SameBlockSameInode(d, PutInode(d, i, x), j);
    } else {
      RecordsDisjoint(i, j);
      RecordAfterSet(d[InodeBlock(i)], InodeWord(i), InodeWords(x), InodeWord(j));
      InodeWordsRoundTrip(x);
    }
  }

  /** put_inode then get_inode: x itself, or nothing when x has type 0, and no other inode changes. */
  lemma PutThenGet(d: Image, i: nat, x: Inode, j: nat)
    requires i < INODE_NUM && j < INODE_NUM
    ensures GetInode(PutInode(d, i, x), j) ==
            if i != j then GetInode(d, j) else if x.typ == 0 then None else Some(x)
  {
    PutThenAt(d, i, x, j);
  }

  /** All 1024 records. */
  ghost function Table(d: Image): (t: seq<Inode>)
    ensures |t| == INODE_NUM && forall i :: 0 <= i < INODE_NUM ==> t[i] == InodeAt(d, i)
  {
    seq<Inode>(INODE_NUM, i requires 0 <= i < INODE_NUM => InodeAt(d, i))
  }

  /** put_inode updates one record of the table, no allocation bit and no data block. */
  lemma PutRefinesUpdate(d: Image, i: nat, x: Inode)
    requires i < INODE_NUM
    ensures Table(PutInode(d, i, x)) == Table(d)[i := x]
    ensures Used(PutInode(d, i, x)) == Used(d)
    ensures forall b :: FIRST_DATA <= b < BLOCK_NUM ==> PutInode(d, i, x)[b] == d[b]
  {
    var d' := PutInode(d, i, x);
    forall j | 0 <= j < INODE_NUM
      ensures Table(d')[j] == Table(d)[i := x][j]
    {
      PutThenAt(d, i, x, j);
    }
    assert Table(d') == Table(d)[i := x];
    assert 9 <= InodeBlock(i) <= 122;
    SameBitmapSameUsed(d, d');
  }

  lemma SameBitmapSameUsed(d: Image, d': Image)
    requires forall b :: 1 <= b <= 8 ==> d'[b] == d[b]
    ensures Used(d') == Used(d)
  {
    forall id: nat | id < BLOCK_NUM
      ensures Allocated(d', id) == Allocated(d, id)
    {
      assert 1 <= BitmapBlock(id) <= 8;
    }
  }

  lemma SameBlockSameInode(d: Image, d': Image, i: nat)
    requires i < INODE_NUM && d'[InodeBlock(i)] == d[InodeBlock(i)]
    ensures InodeAt(d', i) == InodeAt(d, i)
  {
  }

  lemma SameBlocksSameTable(d: Image, d': Image)
    requires forall b :: 9 <= b <= 122 ==> d'[b] == d[b]
    ensures Table(d') == Table(d)
  {
    forall i | 0 <= i < INODE_NUM
      ensures Table(d')[i] == Table(d)[i]
    {
      RegionsDisjoint(0, i);
      SameBlockSameInode(d, d', i);
    }
  }

  /** A write to a data block changes neither the bitmap nor the table. */
  lemma StoreKeepsMetadata(d: Image, id: nat, b: Block)
    requires FIRST_DATA <= id
    ensures Used(Store(d, id, b)) == Used(d)
    ensures Table(Store(d, id, b)) == Table(d)
  {
    SameBitmapSameUsed(d, Store(d, id, b));
    SameBlocksSameTable(d, Store(d, id, b));
  }
}
