/**
 * The file operations of inode_layer, as total functions on disk images.
 *
 * Memory that the code reads before it has written it (the tails of its 512-byte stack buffers, a
 * buffer whose block read was skipped, a pointer past the end of the indirect block) has an
 * arbitrary value, passed in as `Garbage`.
 */
module FileOps {
  import opened Layout
  import opened DiskImage
  import opened Bitmap
  import opened InodeTable

  datatype Garbage = Garbage(
    final: Block,            // final_indirect_block
    fill: nat -> Block,      // the data buffer of loop iteration k
    unread: nat -> Block,    // the indirect buffer of loop iteration k, when no block is read into it
    past: nat -> u32)        // what lies w words after the start of an indirect buffer, for w >= NINDIRECT

  function Min(a: int, b: int): int {
    if a < b then a else b
  }

  function Max(a: int, b: int): int {
    if a < b then b else a
  }

  /** An unsigned 32-bit value assigned to an int. */
  function ToInt(x: u32): int {
    if x < 0x8000_0000 then x else x - 0x1_0000_0000
  }

  /** The conversion keeps the value modulo 2^32, and the id that stands for "no block" is -1. */
  lemma TwosComplement(x: u32)
    ensures -0x8000_0000 <= ToInt(x) < 0x8000_0000 && (ToInt(x) - x) % 0x1_0000_0000 == 0
    ensures ToInt(NO_BLOCK) == -1
  {
  }

  /** Number of blocks that s bytes occupy. */
  function BlocksFor(s: int): nat {
    if s <= 0 then 0 else (s + BLOCK_SIZE - 1) / BLOCK_SIZE
  }

  /** Entry w of an indirect block seen as an int array. */
  function Pointer(b: Block, w: nat, g: Garbage): u32 {
    if w < NINDIRECT then Word(b, w) else g.past(w)
  }

  function Pointers(b: Block, from: nat, n: nat, g: Garbage): (ids: seq<u32>)
    ensures |ids| == n && forall x :: 0 <= x < n ==> ids[x] == Pointer(b, from + x, g)
  {
    seq<u32>(n, x requires 0 <= x < n => Pointer(b, from + x, g))
  }

  /** Frees the given blocks from left to right. */
  function FreeAll(d: Image, ids: seq<u32>): Image {
    if ids == [] then d else FreeBlock(FreeAll(d, ids[..|ids| - 1]), ids[|ids| - 1])
  }

  // ---- write_file -----------------------------------------------------------------------------------------

  /** The data buffer of iteration k: block k of the new contents, the rest of the buffer untouched. */
  function Chunk(data: seq<byte>, k: nat, fill: Block): Block
    requires k < BlocksFor(|data|)
  {
    var n := Min(BLOCK_SIZE, |data| - BLOCK_SIZE * k);
    data[BLOCK_SIZE * k..BLOCK_SIZE * k + n] + fill[n..]
  }

  /** num_bytes_already_written at the head of iteration k, when s bytes are written in all. */
  function Written(s: nat, k: nat): int {
    if k == 0 then 0 else Min(BLOCK_SIZE * k, s - BLOCK_SIZE)
  }

  /** The writer's choice between direct and indirect section at iteration k. */
  predicate WritesDirect(s: nat, k: nat) {
    Written(s, k) < DIRECT_BYTES
  }

  /** need_to_overwrite_indirect once k iterations are done. */
  predicate WroteIndirect(s: nat, k: nat) {
    k > NDIRECT && !WritesDirect(s, k - 1)
  }

  /** The variables of write_file that change during its loop. */
  datatype Cursor = Cursor(d: Image, blocks: seq<u32>, final: Block)

  predicate ValidCursor(c: Cursor) {
    |c.blocks| == NDIRECT + 1
  }

  /** Stores the buffer in a fresh block and returns its id. */
  function PlaceFresh(d: Image, b: Block): (Image, u32) {
    var (d', id) := AllocBlock(d);
    (Store(d', id, b), id)
  }

  /** Indirect block not there yet: it is allocated on the first indirect iteration. */
  function StepNewIndirect(c: Cursor, k: nat, b: Block): (c': Cursor)
    requires ValidCursor(c) && NDIRECT <= k < MAX_BLOCKS
    ensures ValidCursor(c')
  {
    var (d1, blocks1) :=
      if k == NDIRECT then
        var (d', id) := AllocBlock(c.d);
        (d', c.blocks[NDIRECT := id])
      else (c.d, c.blocks);
    var (d2, id) := PlaceFresh(d1, b);
    Cursor(d2, blocks1, SetWord(c.final, k - NDIRECT, id))
  }

  /** Indirect block there, block k not: it is allocated. */
  function StepGrow(c: Cursor, k: nat, b: Block): (c': Cursor)
    requires ValidCursor(c) && NDIRECT <= k < MAX_BLOCKS
    ensures ValidCursor(c')
  {
    var (d', id) := PlaceFresh(c.d, b);
    Cursor(d', c.blocks, SetWord(c.final, k - NDIRECT, id))
  }

  /** Block k of the old file is overwritten in place. */
  function StepReuse(c: Cursor, k: nat, b: Block, unread: Block): (c': Cursor)
    requires ValidCursor(c) && NDIRECT <= k < MAX_BLOCKS
    ensures ValidCursor(c')
  {
    var id := Word(Fetch(c.d, c.blocks[NDIRECT], unread), k - NDIRECT);
    Cursor(Store(c.d, id, b), c.blocks, SetWord(c.final, k - NDIRECT, id))
  }

  /** One iteration; `o` is the size of the file before the write. */
  function WriteStep(c: Cursor, data: seq<byte>, o: int, k: nat, g: Garbage): (c': Cursor)
    requires ValidCursor(c) && |data| <= MAX_BYTES && k < BlocksFor(|data|)
    ensures ValidCursor(c')
  {
    var s := |data|;
    var b := Chunk(data, k, g.fill(k));
    if WritesDirect(s, k) then
      var (d', id) := PlaceFresh(c.d, b);
      Cursor(d', c.blocks[k := id], c.final)
    else if s >= o then
      if o <= DIRECT_BYTES then StepNewIndirect(c, k, b)
      else if Written(s, k) >= o then StepGrow(c, k, b)
      else StepReuse(c, k, b, g.unread(k))
    else StepReuse(c, k, b, g.unread(k))
  }

  /** The first k iterations. */
  function WriteUpTo(c: Cursor, data: seq<byte>, o: int, k: nat, g: Garbage): (c': Cursor)
    requires ValidCursor(c) && |data| <= MAX_BYTES && k <= BlocksFor(|data|)
    ensures ValidCursor(c')
  {
    if k == 0 then c else WriteStep(WriteUpTo(c, data, o, k - 1, g), data, o, k - 1, g)
  }

  lemma UnfoldWrite(c: Cursor, data: seq<byte>, o: int, k: nat, g: Garbage, c1: Cursor, c': Cursor)
    requires ValidCursor(c) && |data| <= MAX_BYTES && k < BlocksFor(|data|)
    requires c1 == WriteUpTo(c, data, o, k, g) && c' == WriteStep(c1, data, o, k, g)
    ensures c' == WriteUpTo(c, data, o, k + 1, g)
  {
  }

  /** The entries that a shrinking write frees: it counts bytes, not blocks. */
  function TrailingIds(c: Cursor, s: nat, o: int, g: Garbage): seq<u32>
    requires ValidCursor(c) && s <= MAX_BYTES
  {
    if WroteIndirect(s, BlocksFor(s)) && s < o then
      var before := Fetch(c.d, c.blocks[NDIRECT], g.unread(BlocksFor(s)));
      Pointers(before, BlocksFor(s) - NDIRECT, BlocksFor(o - s), g)
    else []
  }

  /** The indirect block is written back, or its pointer freed when the file does not need one. */
  function Flush(d: Image, blocks: seq<u32>, final: Block, s: nat): Image
    requires |blocks| == NDIRECT + 1
  {
    var d' := if WroteIndirect(s, BlocksFor(s)) then Store(d, blocks[NDIRECT], final) else d;
    if s <= DIRECT_BYTES then FreeBlock(d', blocks[NDIRECT]) else d'
  }

  /** What follows the loop, except the update of the inode. */
  function FinishWrite(c: Cursor, s: nat, o: int, g: Garbage): Image
    requires ValidCursor(c) && s <= MAX_BYTES
  {
    Flush(FreeAll(c.d, TrailingIds(c, s, o, g)), c.blocks, c.final, s)
  }

  function StartWrite(d: Image, x: Inode, g: Garbage): (c: Cursor)
    ensures ValidCursor(c)
  {
    Cursor(FreeAll(d, x.blocks[..NDIRECT]), x.blocks, g.final)
  }

  /** write_file: too large a size and a missing inode leave the disk alone. */
  function WriteFile(d: Image, i: nat, data: seq<byte>, g: Garbage): Image {
    if |data| > MAX_BYTES || GetInode(d, i) == None then d
    else
      var x := GetInode(d, i).value;
      var o := ToInt(x.size);
      var c := WriteUpTo(StartWrite(d, x, g), data, o, BlocksFor(|data|), g);
      PutInode(FinishWrite(c, |data|, o, g), i, x.(size := |data|, blocks := c.blocks))
  }

  // ---- read_file ------------------------------------------------------------------------------------------

  datatype ReadResult = NoFile | Contents(size: int, bytes: seq<byte>)

  /** The reader's choice between direct and indirect section at iteration k. */
  predicate ReadsDirect(k: nat) {
    BLOCK_SIZE * k < DIRECT_BYTES
  }

  function ReadStep(d: Image, x: Inode, ind: Block, k: nat, g: Garbage): seq<byte>
    requires BLOCK_SIZE * k < ToInt(x.size)
  {
    var id := if ReadsDirect(k) then x.blocks[k] else Pointer(ind, k - NDIRECT, g);
    Fetch(d, id, g.fill(k))[..Min(BLOCK_SIZE, ToInt(x.size) - BLOCK_SIZE * k)]
  }

  function ReadUpTo(d: Image, x: Inode, ind: Block, k: nat, g: Garbage): seq<byte>
    requires k <= BlocksFor(ToInt(x.size))
  {
    if k == 0 then [] else ReadUpTo(d, x, ind, k - 1, g) + ReadStep(d, x, ind, k - 1, g)
  }

  /** read_file at time `now`: it also stores the access time. */
  function ReadFile(d: Image, i: nat, now: u32, g: Garbage): (Image, ReadResult) {
    match GetInode(d, i)
    case None => (d, NoFile)
    case Some(x0) =>
      var x := x0.(atime := now);
      var d' := PutInode(d, i, x);
      var ind := Fetch(d', x.blocks[NDIRECT], g.unread(0));
      (d', Contents(ToInt(x.size), ReadUpTo(d', x, ind, BlocksFor(ToInt(x.size)), g)))
  }

  // ---- remove_file, alloc_inode, getattr ------------------------------------------------------------------

  /** Crashed stands for free_inode's dereference of the null pointer that get_inode returned. */
  datatype Outcome = Done(d: Image) | Crashed

  function FreeInode(d: Image, i: nat): Outcome {
    match GetInode(d, i)
    case None => Crashed
    case Some(x) => Done(PutInode(d, i, x.(typ := 0)))
  }

  /** remove_file's block frees; a file past the direct slots has one more entry freed than it may own. */
  function FreeFile(d: Image, x: Inode, g: Garbage): Image {
    var d1 := FreeAll(d, x.blocks[..NDIRECT]);
    var rest := ToInt(x.size) - DIRECT_BYTES;
    if rest > 0 then
      var ind := Fetch(d1, x.blocks[NDIRECT], g.unread(0));
      FreeBlock(FreeAll(d1, Pointers(ind, 0, rest / BLOCK_SIZE + 1, g)), x.blocks[NDIRECT])
    else d1
  }

  function RemoveFile(d: Image, i: nat, g: Garbage): Outcome {
    match GetInode(d, i)
    case None => Done(d)
    case Some(x) => FreeInode(FreeFile(d, x, g), i)
  }

  /** The least inode number from `from` on that is not in use, or INODE_NUM. */
  function FirstFreeInode(d: Image, from: nat): nat
    requires from <= INODE_NUM
    decreases |d| - from
  {
    if from == INODE_NUM || GetInode(d, from) == None then from else FirstFreeInode(d, from + 1)
  }

  datatype Times = Times(atime: u32, ctime: u32, mtime: u32)

  /** The number alloc_inode picks: when every inode is in use the code falls back on inode 0. */
  function FreshInode(d: Image): nat {
    if FirstFreeInode(d, 0) == INODE_NUM then 0 else FirstFreeInode(d, 0)
  }

  /** alloc_inode */
  function AllocInode(d: Image, typ: u32, now: Times): (Image, nat) {
    (PutInode(d, FreshInode(d), NewInode(typ, now)), FreshInode(d))
  }

  function NewInode(typ: u32, now: Times): Inode {
    InodeRecord(typ % 0x1_0000, 0, 0, now.atime, now.mtime, now.ctime, NULL_BLOCKS)
  }

  /** The disk after the constructor: zeroed, then inode 0 allocated as the root directory (type 1). */
  function Format(now: Times): Image {
    AllocInode(ZeroImage(), 1, now).0
  }

  datatype Attr = Attr(typ: u32, size: u32, atime: u32, mtime: u32, ctime: u32)

  /** A 16-bit type assigned to an unsigned 32-bit field is sign-extended. */
  function SignExtend(t: u16): u32 {
    if t < 0x8000 then t else t + 0xFFFF_0000
  }

  /** getattr: a missing inode leaves the caller's structure alone. */
  function GetAttr(d: Image, i: nat): Option<Attr> {
    match GetInode(d, i)
    case None => None
    case Some(x) => Some(Attr(SignExtend(x.typ), x.size, x.atime, x.mtime, x.ctime))
  }
}
