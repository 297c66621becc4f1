/** Disk contents as values: bytes, 512-byte blocks, little-endian words, and whole disk images. */
module DiskImage {
  import opened Layout

  type byte = x: nat | x < 256
  type u32 = x: nat | x < 0x1_0000_0000

  type Block = b: seq<byte> | |b| == BLOCK_SIZE witness seq(BLOCK_SIZE, _ => 0)
  type Image = d: seq<Block> | |d| == BLOCK_NUM witness ZeroImage()

  function ZeroBlock(): Block {
    seq(BLOCK_SIZE, _ => 0)
  }

  /** The freshly formatted disk: every byte zero. */
  function ZeroImage(): seq<Block> {
    seq<Block>(BLOCK_NUM, _ => ZeroBlock())
  }

  /** Word w of a block read as an array of 32-bit little-endian integers. */
  function Word(b: Block, w: nat): u32
    requires w < NINDIRECT
  {
    b[4 * w] as int + 0x100 * b[4 * w + 1] as int
    + 0x1_0000 * b[4 * w + 2] as int + 0x100_0000 * b[4 * w + 3] as int
  }

  function WordBytes(x: u32): (bs: seq<byte>)
    ensures |bs| == 4
  {
    [x % 0x100, x / 0x100 % 0x100, x / 0x1_0000 % 0x100, x / 0x100_0000]
  }

  /** The block with the four bytes at offset 4w replaced by x. */
  function SetWord(b: Block, w: nat, x: u32): Block
    requires w < NINDIRECT
  {
    b[..4 * w] + WordBytes(x) + b[4 * w + 4..]
  }

  /** Words are little-endian: the first of the four bytes is the least significant. */
  lemma LittleEndian(b: Block, w: nat)
    requires w < NINDIRECT
    ensures b[4 * w] == Word(b, w) % 0x100 && b[4 * w + 1] == Word(b, w) / 0x100 % 0x100
    ensures b[4 * w + 2] == Word(b, w) / 0x1_0000 % 0x100 && b[4 * w + 3] == Word(b, w) / 0x100_0000
  {
    var hi: int := b[4 * w + 3];
    var top: int := b[4 * w + 2] as int + 0x100 * hi;
    var rest: int := b[4 * w + 1] as int + 0x100 * top;
    assert Word(b, w) == b[4 * w] as int + 0x100 * rest;
    assert Word(b, w) / 0x100 == rest && rest / 0x100 == top && top / 0x100 == hi;
  }

  lemma WordOfSetWord(b: Block, w: nat, x: u32, v: nat)
    requires w < NINDIRECT && v < NINDIRECT
    ensures Word(SetWord(b, w, x), v) == if v == w then x else Word(b, v)
  {
    if v == w {
      WordOfBytes(b, w, x);
    } else {
      OtherWord(b, w, x, v);
    }
  }

  lemma WordOfBytes(b: Block, w: nat, x: u32)
    requires w < NINDIRECT
    ensures Word(SetWord(b, w, x), w) == x
  {
    var s := SetWord(b, w, x);
    assert s[4 * w..4 * w + 4] == WordBytes(x);
    assert s[4 * w] == WordBytes(x)[0] && s[4 * w + 1] == WordBytes(x)[1];
    assert s[4 * w + 2] == WordBytes(x)[2] && s[4 * w + 3] == WordBytes(x)[3];
    Digits(x);
  }

  /** The four bytes of a number give back the number. */
  lemma Digits(x: u32)
    ensures x == x % 0x100 + 0x100 * (x / 0x100 % 0x100)
                 + 0x1_0000 * (x / 0x1_0000 % 0x100) + 0x100_0000 * (x / 0x100_0000)
  {
    assert x == 0x100 * (x / 0x100) + x % 0x100;
    assert x / 0x100 == 0x100 * (x / 0x1_0000) + x / 0x100 % 0x100;
    assert x / 0x1_0000 == 0x100 * (x / 0x100_0000) + x / 0x1_0000 % 0x100;
  }

  lemma OtherWord(b: Block, w: nat, x: u32, v: nat)
    requires w < NINDIRECT && v < NINDIRECT && v != w
    ensures Word(SetWord(b, w, x), v) == Word(b, v)
  {
    var s := SetWord(b, w, x);
    assert forall p :: 4 * v <= p < 4 * v + 4 ==> s[p] == b[p];
  }

  /**
   * A block read.  The guard of disk::read_block skips ids past the end, which leaves the caller's
   * buffer as it was; the one id the guard lets through by mistake, BLOCK_NUM, yields bytes from
   * outside the disk.  Both are covered by an arbitrary `scratch`.
   */
  function Fetch(d: Image, id: nat, scratch: Block): Block {
    if id < BLOCK_NUM then d[id] else scratch
  }

  /** A block write: ids past the end change no block. */
  function Store(d: Image, id: nat, b: Block): Image {
    if id < BLOCK_NUM then d[id := b] else d
  }
}
