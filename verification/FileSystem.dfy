/**
 * The classes disk, block_layer and inode_layer, as the code is written: loops over counters and buffers that
 * update the blocks in place.  Every method is proved equal to its function on disk images.
 */
module FileSystem {
  import opened Layout
  import opened DiskImage
  import opened Bitmap
  import opened InodeTable
  import opened FileOps

  /** The counters at the head of iteration k, and which section iteration k is in. */
  lemma LoopHead(s: nat, k: nat)
    requires k < BlocksFor(s) && s <= MAX_BYTES
    ensures k + 1 < BlocksFor(s) ==> Written(s, k + 1) == Written(s, k) + Min(BLOCK_SIZE, s - BLOCK_SIZE * (k + 1))
    ensures WroteIndirect(s, k + 1) == !WritesDirect(s, k)
    ensures WritesDirect(s, k) ==> k <= NDIRECT && !WroteIndirect(s, k)
    ensures !WritesDirect(s, k) ==> k >= NDIRECT && (WroteIndirect(s, k) <==> k > NDIRECT)
  {
  }

  lemma FreeAllNext(d: Image, ids: seq<u32>, n: nat)
    requires n < |ids|
    ensures FreeAll(d, ids[..n + 1]) == FreeBlock(FreeAll(d, ids[..n]), ids[n])
  {
    assert ids[..n + 1][..n] == ids[..n];
  }

  /** The local variables of write_file's loop when k iterations are done. */
  predicate Counters(s: nat, o: int, k: nat, remaining: int, written: int,
                     wrote: bool, indirectIndex: nat, have: bool) {
    && k <= BlocksFor(s) && remaining == s - Min(BLOCK_SIZE * k, s)
    && (remaining > 0 ==> written == Written(s, k))
    && wrote == WroteIndirect(s, k)
    && indirectIndex == (if wrote then k - NDIRECT else 0)
    && have == (wrote && s >= o && o <= DIRECT_BYTES)
  }

  lemma CountersMove(s: nat, o: int, k: nat, remaining: int, written: int, wrote: bool, indirectIndex: nat, have: bool)
    requires s <= MAX_BYTES && Counters(s, o, k, remaining, written, wrote, indirectIndex, have) && remaining > 0
    ensures k < BlocksFor(s) && written == Written(s, k)
    ensures !WritesDirect(s, k) ==>
              indirectIndex == k - NDIRECT && (s >= o && o <= DIRECT_BYTES ==> (have <==> indirectIndex > 0))
    ensures WritesDirect(s, k) <==> written < DIRECT_BYTES
    ensures var rest := remaining - Min(BLOCK_SIZE, remaining);
            var indirect := written >= DIRECT_BYTES;
            Counters(s, o, k + 1, rest, written + Min(BLOCK_SIZE, rest), wrote || indirect,
                     if indirect then indirectIndex + 1 else indirectIndex,
                     have || (indirect && s >= o && o <= DIRECT_BYTES))
  {
    LoopHead(s, k);
  }

  lemma LoopExit(s: nat, k: nat)
    requires k <= BlocksFor(s) && s - Min(BLOCK_SIZE * k, s) <= 0
    ensures k == BlocksFor(s)
  {
  }

  class Disk {
    const blocks: array<Block>

    ghost predicate Valid() {
      blocks.Length == BLOCK_NUM
    }

    ghost function Img(): Image
      requires Valid()
      reads blocks
    {
      blocks[..]
    }

    constructor ()
      ensures Valid() && fresh(blocks) && Img() == ZeroImage()
    {
      blocks := new Block[BLOCK_NUM](_ => ZeroBlock());
    }

    /** `buf` is what the caller's buffer holds before the read. */
    method ReadBlock(id: u32, buf: Block) returns (r: Block)
      requires Valid()
      ensures r == Fetch(Img(), id, buf)
      ensures r == if id < BLOCK_NUM then Img()[id] else buf
    {
      if id >= BLOCK_NUM {
        r := buf;
      } else {
        r := blocks[id];
      }
    }

    method WriteBlock(id: u32, buf: Block)
      requires Valid()
      modifies blocks
      ensures Img() == Store(old(Img()), id, buf)
      ensures id < BLOCK_NUM ==> Img()[id] == buf
      ensures forall b: nat :: b < BLOCK_NUM && b != id ==> Img()[b] == old(Img())[b]
    {
      if id < BLOCK_NUM {
        blocks[id] := buf;
      }
    }
  }

  class BlockLayer {
    const d: Disk

    ghost predicate Valid() {
      d.Valid()
    }

    ghost function Img(): Image
      requires Valid()
      reads d.blocks
    {
      d.Img()
    }

    constructor ()
      ensures Valid() && fresh(d.blocks) && Img() == ZeroImage()
    {
      d := new Disk();
    }

    method AllocBlock() returns (id: u32)
      requires Valid()
      modifies d.blocks
      ensures (Img(), id) == Bitmap.AllocBlock(old(Img()))
    {
      var n := FIRST_DATA;
      while n < BLOCK_NUM
        invariant FIRST_DATA <= n <= BLOCK_NUM && Img() == old(Img())
        invariant FirstFree(old(Img()), FIRST_DATA) == FirstFree(old(Img()), n)
      {
        var buf := d.ReadBlock(BitmapBlock(n), ZeroBlock());
        var byteOffset, bitOffset := n % BITS_PER_BLOCK / 8, n % BITS_PER_BLOCK % 8;
        if !BitSet(buf[byteOffset], bitOffset) {
          buf := buf[byteOffset := FlipBit(buf[byteOffset], bitOffset)];
          d.WriteBlock(BitmapBlock(n), buf);
          return n;
        }
        n := n + 1;
      }
      id := NO_BLOCK;
    }

    method FreeBlock(id: u32)
      requires Valid()
      modifies d.blocks
      ensures Img() == Bitmap.FreeBlock(old(Img()), id)
    {
      var buf := d.ReadBlock(BitmapBlock(id), ZeroBlock());
      var byteOffset, bitOffset := id % BITS_PER_BLOCK / 8, id % BITS_PER_BLOCK % 8;
      buf := buf[byteOffset := ClearBit(buf[byteOffset], bitOffset)];
      d.WriteBlock(BitmapBlock(id), buf);
    }
  }

  class InodeLayer {
    const bm: BlockLayer

    ghost predicate Valid() {
      bm.Valid()
    }

    ghost function Img(): Image
      requires Valid()
      reads bm.d.blocks
    {
      bm.Img()
    }

    constructor (now: Times)
      ensures Valid() && fresh(bm.d.blocks)
      ensures Img() == Format(now)
    {
      bm := new BlockLayer();
      new;
      var root := AllocInode(1, now);
    }

    method GetInode(inum: u32) returns (ino: Option<Inode>)
      requires Valid()
      ensures ino == InodeTable.GetInode(Img(), inum)
    {
      if inum >= INODE_NUM {
        return None;
      }
      var buf := bm.d.ReadBlock(InodeBlock(inum), ZeroBlock());
      var x := InodeOfWords(GetWords(buf, InodeWord(inum)));
      ino := if x.typ == 0 then None else Some(x);
    }

    method PutInode(inum: u32, ino: Inode)
      requires Valid()
      modifies bm.d.blocks
      ensures Img() == InodeTable.PutInode(old(Img()), inum, ino)
    {
      if inum >= INODE_NUM {
        return;
      }
      var buf := bm.d.ReadBlock(InodeBlock(inum), ZeroBlock());
      buf := SetWords(buf, InodeWord(inum), InodeWords(ino));
      bm.d.WriteBlock(InodeBlock(inum), buf);
    }

    method AllocInode(typ: u32, now: Times) returns (inum: nat)
      requires Valid()
      modifies bm.d.blocks
      ensures (Img(), inum) == FileOps.AllocInode(old(Img()), typ, now)
    {
      inum := 0;
      var x := 0;
      while x < INODE_NUM
        invariant 0 <= x <= INODE_NUM && inum == 0 && Img() == old(Img())
        invariant FirstFreeInode(Img(), 0) == FirstFreeInode(Img(), x)
      {
        var thisOne := GetInode(x);
        if thisOne == None {
          inum := x;
          break;
        }
        x := x + 1;
      }
      PutInode(inum, NewInode(typ, now));
    }

    method ReadFile(inum: u32, now: u32, g: Garbage) returns (r: ReadResult)
      requires Valid() && inum < INODE_NUM
      modifies bm.d.blocks
      ensures (Img(), r) == FileOps.ReadFile(old(Img()), inum, now, g)
    {
      var found := GetInode(inum);
      if found == None {
        return NoFile;
      }
      var ino := found.value.(atime := now);
      PutInode(inum, ino);
      var buf := ReadData(ino, g);
      r := Contents(ToInt(ino.size), buf);
    }

    /** The part of read_file that fills the buffer. */
    method ReadData(ino: Inode, g: Garbage) returns (buf: seq<byte>)
      requires Valid()
      ensures var size := ToInt(ino.size);
              buf == ReadUpTo(Img(), ino, Fetch(Img(), ino.blocks[NDIRECT], g.unread(0)), BlocksFor(size), g)
    {
      var size := ToInt(ino.size);
      buf := [];
      var remaining, alreadyRead, index, indirectIndex := size, 0, 0, 0;
      var indirect := bm.d.ReadBlock(ino.blocks[NDIRECT], g.unread(0));
      while remaining > 0
        invariant 0 <= index <= BlocksFor(size)
        invariant remaining == if size < 0 then size else size - Min(BLOCK_SIZE * index, size)
        invariant size >= 0 ==> alreadyRead == Min(BLOCK_SIZE * index, size)
        invariant indirectIndex == Max(0, index - NDIRECT)
        invariant buf == ReadUpTo(Img(), ino, indirect, index, g)
        decreases remaining
      {
        var n := Min(BLOCK_SIZE, remaining);
        var block := ReadOne(ino, indirect, index, indirectIndex, alreadyRead, n, g);
        if alreadyRead >= DIRECT_BYTES {
          indirectIndex := indirectIndex + 1;
        }
        buf := buf + block;
        alreadyRead := alreadyRead + n;
        remaining := remaining - n;
        index := index + 1;
      }
    }

    /** One iteration: n bytes of a direct or an indirect block. */
    method ReadOne(ino: Inode, indirect: Block, index: nat, indirectIndex: nat, alreadyRead: nat, n: nat, g: Garbage)
      returns (bytes: seq<byte>)
      requires Valid() && BLOCK_SIZE * index < ToInt(ino.size) && alreadyRead == BLOCK_SIZE * index
      requires n == Min(BLOCK_SIZE, ToInt(ino.size) - BLOCK_SIZE * index)
      requires index >= NDIRECT ==> indirectIndex == index - NDIRECT
      ensures bytes == ReadStep(Img(), ino, indirect, index, g)
    {
      var block: Block;
      if alreadyRead < DIRECT_BYTES {
        block := bm.d.ReadBlock(ino.blocks[index], g.fill(index));
      } else {
        block := bm.d.ReadBlock(Pointer(indirect, indirectIndex, g), g.fill(index));
      }
      bytes := block[..n];
    }

    /** `buf` holds at least `size` bytes. */
    method WriteFile(inum: u32, buf: seq<byte>, size: int, g: Garbage)
      requires Valid() && inum < INODE_NUM && size <= |buf|
      modifies bm.d.blocks
      ensures Img() == if size < 0 then old(Img()) else FileOps.WriteFile(old(Img()), inum, buf[..size], g)
    {
      if size < 0 || size > MAX_BYTES {
        return;
      }
      var found := GetInode(inum);
      if found == None {
        return;
      }
      var ino := found.value;
      FreeEach(ino.blocks[..NDIRECT]);
      var blocks, final, wroteIndirect, indirectIndex := WriteData(ino, buf[..size], g);
      ghost var c := Cursor(Img(), blocks, final);
      FinishWriting(blocks, final, wroteIndirect, indirectIndex, size, ToInt(ino.size), g);
      ino := ino.(size := size, blocks := blocks);
      PutInode(inum, ino);
    }

    /** The loop of write_file. */
    method WriteData(ino: Inode, data: seq<byte>, g: Garbage)
      returns (blocks: seq<u32>, final: Block, wroteIndirect: bool, indirectIndex: nat)
      requires Valid() && |data| <= MAX_BYTES
      modifies bm.d.blocks
      ensures |blocks| == NDIRECT + 1
      ensures Cursor(Img(), blocks, final) ==
              WriteUpTo(Cursor(old(Img()), ino.blocks, g.final), data, ToInt(ino.size), BlocksFor(|data|), g)
      ensures wroteIndirect == WroteIndirect(|data|, BlocksFor(|data|))
      ensures indirectIndex == if wroteIndirect then BlocksFor(|data|) - NDIRECT else 0
    {
      var size, oldSize := |data|, ToInt(ino.size);
      var remaining, written, index, haveIndirect := size, 0, 0, false;
      blocks, final, wroteIndirect, indirectIndex := ino.blocks, g.final, false, 0;
      ghost var c0 := Cursor(old(Img()), ino.blocks, g.final);
      ghost var c := c0;
      while remaining > 0
        invariant Counters(size, oldSize, index, remaining, written, wroteIndirect, indirectIndex, haveIndirect)
        invariant |blocks| == NDIRECT + 1 && Cursor(Img(), blocks, final) == c
        invariant c == WriteUpTo(c0, data, oldSize, index, g)
        decreases remaining
      {
        CountersMove(size, oldSize, index, remaining, written, wroteIndirect, indirectIndex, haveIndirect);
        blocks, final, haveIndirect :=
          WriteOne(blocks, final, haveIndirect, index, indirectIndex, data, oldSize, written, g);
        if written >= DIRECT_BYTES {
          wroteIndirect, indirectIndex := true, indirectIndex + 1;
        }
        UnfoldWrite(c0, data, oldSize, index, g, c, Cursor(Img(), blocks, final));
        c := Cursor(Img(), blocks, final);
        remaining := remaining - Min(BLOCK_SIZE, remaining);
        written := written + Min(BLOCK_SIZE, remaining);
        index := index + 1;
      }
      LoopExit(size, index);
    }

    /** One iteration: the data buffer is filled and placed. */
    method WriteOne(blocks: seq<u32>, final: Block, haveIndirect: bool, index: nat, indirectIndex: nat,
                    data: seq<byte>, oldSize: int, written: int, g: Garbage)
      returns (blocks': seq<u32>, final': Block, haveIndirect': bool)
      requires Valid() && |blocks| == NDIRECT + 1 && |data| <= MAX_BYTES && index < BlocksFor(|data|)
      requires written == Written(|data|, index)
      requires !WritesDirect(|data|, index) ==> indirectIndex == index - NDIRECT
      requires |data| >= oldSize && oldSize <= DIRECT_BYTES && !WritesDirect(|data|, index) ==>
                 (haveIndirect <==> indirectIndex > 0)
      modifies bm.d.blocks
      ensures |blocks'| == NDIRECT + 1
      ensures haveIndirect' ==
              (haveIndirect || (!WritesDirect(|data|, index) && |data| >= oldSize && oldSize <= DIRECT_BYTES))
      ensures Cursor(Img(), blocks', final') == WriteStep(Cursor(old(Img()), blocks, final), data, oldSize, index, g)
    {
      LoopHead(|data|, index);
      var n := Min(BLOCK_SIZE, |data| - BLOCK_SIZE * index);
      var buffer: Block := data[index * BLOCK_SIZE..index * BLOCK_SIZE + n] + g.fill(index)[n..];
      if written < DIRECT_BYTES {
        final', haveIndirect' := final, haveIndirect;
        blocks' := WriteDirect(blocks, index, buffer);
      } else {
        blocks', final', haveIndirect' :=
          WriteIndirect(blocks, final, haveIndirect, indirectIndex, buffer, |data|, oldSize, written, g.unread(index));
      }
    }

    /** The direct section of one iteration. */
    method WriteDirect(blocks: seq<u32>, index: nat, buffer: Block) returns (blocks': seq<u32>)
      requires Valid() && |blocks| == NDIRECT + 1 && index < |blocks|
      modifies bm.d.blocks
      ensures var (d', id) := PlaceFresh(old(Img()), buffer);
              Img() == d' && blocks' == blocks[index := id]
    {
      var id := bm.AllocBlock();
      blocks' := blocks[index := id];
      bm.d.WriteBlock(id, buffer);
    }

    /** The indirect section of one iteration. */
    method WriteIndirect(blocks: seq<u32>, final: Block, haveIndirect: bool, indirectIndex: nat, buffer: Block,
                         size: int, oldSize: int, written: int, unread: Block)
      returns (blocks': seq<u32>, final': Block, haveIndirect': bool)
      requires Valid() && |blocks| == NDIRECT + 1 && indirectIndex < NINDIRECT
      requires size >= oldSize && oldSize <= DIRECT_BYTES ==> (haveIndirect <==> indirectIndex > 0)
      modifies bm.d.blocks
      ensures haveIndirect' == (haveIndirect || (size >= oldSize && oldSize <= DIRECT_BYTES))
      ensures |blocks'| == NDIRECT + 1
      ensures var c, k := Cursor(old(Img()), blocks, final), indirectIndex + NDIRECT;
              Cursor(Img(), blocks', final') ==
              if size >= oldSize && oldSize <= DIRECT_BYTES then StepNewIndirect(c, k, buffer)
              else if size >= oldSize && written >= oldSize then StepGrow(c, k, buffer)
              else StepReuse(c, k, buffer, unread)
    {
      blocks', haveIndirect' := blocks, haveIndirect;
      var id: u32;
      if size >= oldSize {
        if oldSize <= DIRECT_BYTES {
          if !haveIndirect {
            var indirectId := bm.AllocBlock();
            blocks' := blocks[NDIRECT := indirectId];
            haveIndirect' := true;
          }
          id := bm.AllocBlock();
          bm.d.WriteBlock(id, buffer);
        } else if written >= oldSize {
          id := bm.AllocBlock();
          bm.d.WriteBlock(id, buffer);
        } else {
          var indirect := bm.d.ReadBlock(blocks[NDIRECT], unread);
          id := Word(indirect, indirectIndex);
          bm.d.WriteBlock(id, buffer);
        }
      } else {
        var indirect := bm.d.ReadBlock(blocks[NDIRECT], unread);
        id := Word(indirect, indirectIndex);
        bm.d.WriteBlock(id, buffer);
      }
      final' := SetWord(final, indirectIndex, id);
    }

    /** The trailing loop of write_file, which counts bytes rather than blocks. */
    method FreeTail(indirect: Block, from: nat, bytes: nat, g: Garbage, ghost ids: seq<u32>)
      requires Valid() && |ids| == BlocksFor(bytes)
      requires forall x :: 0 <= x < |ids| ==> ids[x] == Pointer(indirect, from + x, g)
      modifies bm.d.blocks
      ensures Img() == FreeAll(old(Img()), ids)
    {
      var indirectIndex, numberToFree := from, bytes;
      while numberToFree > 0
        invariant from <= indirectIndex <= from + |ids|
        invariant numberToFree == bytes - BLOCK_SIZE * (indirectIndex - from)
        invariant Img() == FreeAll(old(Img()), ids[..indirectIndex - from])
        decreases numberToFree
      {
        assert indirectIndex - from < |ids| && Pointer(indirect, indirectIndex, g) == ids[indirectIndex - from];
        bm.FreeBlock(Pointer(indirect, indirectIndex, g));
        FreeAllNext(old(Img()), ids, indirectIndex - from);
        indirectIndex := indirectIndex + 1;
        numberToFree := numberToFree - BLOCK_SIZE;
      }
      assert ids[..indirectIndex - from] == ids;
    }

    /** The frees after the loop of write_file. */
    method FreeTrailing(blocks: seq<u32>, final: Block, wroteIndirect: bool, indirectIndex: nat,
                        size: nat, oldSize: int, g: Garbage)
      requires Valid() && |blocks| == NDIRECT + 1 && size <= MAX_BYTES
      requires wroteIndirect == WroteIndirect(size, BlocksFor(size))
      requires wroteIndirect ==> indirectIndex == BlocksFor(size) - NDIRECT
      modifies bm.d.blocks
      ensures Img() == FreeAll(old(Img()), TrailingIds(Cursor(old(Img()), blocks, final), size, oldSize, g))
    {
      if wroteIndirect && size < oldSize {
        var indirect := bm.d.ReadBlock(blocks[NDIRECT], g.unread(BlocksFor(size)));
        ghost var ids := Pointers(indirect, indirectIndex, BlocksFor(oldSize - size), g);
        FreeTail(indirect, indirectIndex, oldSize - size, g, ids);
      }
    }

    /** What follows the loop of write_file. */
    method FinishWriting(blocks: seq<u32>, final: Block, wroteIndirect: bool, indirectIndex: nat,
                         size: nat, oldSize: int, g: Garbage)
      requires Valid() && |blocks| == NDIRECT + 1 && size <= MAX_BYTES
      requires wroteIndirect == WroteIndirect(size, BlocksFor(size))
      requires wroteIndirect ==> indirectIndex == BlocksFor(size) - NDIRECT
      modifies bm.d.blocks
      ensures Img() == FinishWrite(Cursor(old(Img()), blocks, final), size, oldSize, g)
    {
      FreeTrailing(blocks, final, wroteIndirect, indirectIndex, size, oldSize, g);
      if wroteIndirect {
        bm.d.WriteBlock(blocks[NDIRECT], final);
      }
      if size <= NDIRECT * BLOCK_SIZE {
        bm.FreeBlock(blocks[NDIRECT]);
      }
    }

    method FreeInode(inum: u32) returns (crashed: bool)
      requires Valid()
      modifies bm.d.blocks
      ensures FileOps.FreeInode(old(Img()), inum) == if crashed then Crashed else Done(Img())
    {
      var found := GetInode(inum);
      if found == None {
        return true;
      }
      PutInode(inum, found.value.(typ := 0));
      crashed := false;
    }

    method RemoveFile(inum: u32, g: Garbage) returns (crashed: bool)
      requires Valid()
      modifies bm.d.blocks
      ensures FileOps.RemoveFile(old(Img()), inum, g) == if crashed then Crashed else Done(Img())
    {
      var found := GetInode(inum);
      if found == None {
        return false;
      }
      FreeFile(found.value, g);
      crashed := FreeInode(inum);
    }

    /** The blocks of a file, given back by remove_file. */
    method FreeFile(ino: Inode, g: Garbage)
      requires Valid()
      modifies bm.d.blocks
      ensures Img() == FileOps.FreeFile(old(Img()), ino, g)
    {
      FreeEach(ino.blocks[..NDIRECT]);
      var currentSize := ToInt(ino.size) - NDIRECT * BLOCK_SIZE;
      if currentSize > 0 {
        var indirect := bm.d.ReadBlock(ino.blocks[NDIRECT], g.unread(0));
        var count := currentSize / BLOCK_SIZE + 1;
        FreeEach(Pointers(indirect, 0, count, g));
        bm.FreeBlock(ino.blocks[NDIRECT]);
      }
    }

    /** The loops of write_file and remove_file that free consecutive direct pointers or indirect entries. */
    method FreeEach(ids: seq<u32>)
      requires Valid()
      modifies bm.d.blocks
      ensures Img() == FreeAll(old(Img()), ids)
    {
      var x := 0;
      while x < |ids|
        invariant 0 <= x <= |ids|
        invariant Img() == FreeAll(old(Img()), ids[..x])
      {
        bm.FreeBlock(ids[x]);
        FreeAllNext(old(Img()), ids, x);
        x := x + 1;
      }
      assert ids[..|ids|] == ids;
    }

    method GetAttr(inum: u32) returns (a: Option<Attr>)
      requires Valid()
      ensures a == FileOps.GetAttr(Img(), inum)
    {
      var found := GetInode(inum);
      match found
      case None => a := None;
      case Some(x) => a := Some(Attr(SignExtend(x.typ), x.size, x.atime, x.mtime, x.ctime));
    }
  }
}
