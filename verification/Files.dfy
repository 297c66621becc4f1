/** The abstract view of a consistent disk: a map from inode numbers to files. */
module Files {
  import opened Layout
  import opened DiskImage
  import opened InodeTable
  import opened Ownership

  datatype File = File(typ: u16, bytes: seq<byte>, atime: u32, mtime: u32, ctime: u32)

  type FileMap = map<nat, File>

  /** Byte p of the file with inode x, found through its slots. */
  function ByteAt(d: Image, x: Inode, p: nat): byte {
    Fetch(d, SlotId(d, x, p / BLOCK_SIZE), ZeroBlock())[p % BLOCK_SIZE]
  }

  function Bytes(d: Image, x: Inode): (bs: seq<byte>)
    ensures |bs| == x.size && forall p :: 0 <= p < x.size ==> bs[p] == ByteAt(d, x, p)
  {
    seq<byte>(x.size, p requires 0 <= p < x.size => ByteAt(d, x, p))
  }

  function FileOf(d: Image, x: Inode): File {
    File(x.typ, Bytes(d, x), x.atime, x.mtime, x.ctime)
  }

  /** The files of an inode table. */
  ghost function FilesIn(d: Image, t: seq<Inode>): FileMap {
    map i: nat | i < |t| && Live(t, i) :: FileOf(d, t[i])
  }

  /** All files of the disk. */
  ghost function FilesOf(d: Image): FileMap {
    FilesIn(d, Table(d))
  }

  /** A file whose slots and blocks are the same reads the same. */
  lemma SameSlotsSameBytes(d: Image, d': Image, x: Inode)
    requires SlotMap(d', x) == SlotMap(d, x) && x.size <= MAX_BYTES
    requires forall k :: k in SlotMap(d, x) ==>
               Fetch(d', SlotMap(d, x)[k], ZeroBlock()) == Fetch(d, SlotMap(d, x)[k], ZeroBlock())
    ensures Bytes(d', x) == Bytes(d, x)
  {
    var m := SlotMap(d, x);
    forall p | 0 <= p < x.size
      ensures ByteAt(d', x, p) == ByteAt(d, x, p)
    {
      var k := p / BLOCK_SIZE;
      assert UsesSlot(x.size, k) && k in m && k in SlotMap(d', x);
    }
  }

  lemma OtherFileKept(used0: set<nat>, t: seq<Inode>, d0: Image, ow0: Owners, d: Image, ow: Owners, i: nat, j: nat)
    requires Agrees(used0, t, d0, ow0) && OthersKept(d0, ow0, d, ow, i)
    requires j != i && Live(t, j)
    ensures FileOf(d, t[j]) == FileOf(d0, t[j])
  {
    OtherInodeKept(used0, t, d0, ow0, d, ow, i, j);
    assert FileOk(d0, t[j], ow0, j);
    SameSlotsSameBytes(d0, d, t[j]);
  }

  lemma UpdateFiles(d0: Image, d: Image, t: seq<Inode>, i: nat, x: Inode)
    requires i < |t| && forall j: nat :: j != i && Live(t, j) ==> FileOf(d, t[j]) == FileOf(d0, t[j])
    ensures FilesIn(d, t[i := x]) == if x.typ == 0 then FilesIn(d0, t) - {i} else FilesIn(d0, t)[i := FileOf(d, x)]
  {
    var t' := t[i := x];
    forall j: nat
      ensures Live(t', j) == if j == i then x.typ != 0 else Live(t, j)
    {
    }
  }

  /** The files other than i, when only inode i's blocks and record changed. */
  lemma OtherFilesKept(used0: set<nat>, t: seq<Inode>, d0: Image, ow0: Owners, d: Image, ow: Owners, i: nat, x: Inode)
    requires i < |t| && Agrees(used0, t, d0, ow0) && OthersKept(d0, ow0, d, ow, i)
    ensures FilesIn(d, t[i := x]) == if x.typ == 0 then FilesIn(d0, t) - {i} else FilesIn(d0, t)[i := FileOf(d, x)]
  {
    forall j: nat | j != i && Live(t, j)
      ensures FileOf(d, t[j]) == FileOf(d0, t[j])
    {
      OtherFileKept(used0, t, d0, ow0, d, ow, i, j);
    }
    UpdateFiles(d0, d, t, i, x);
  }
}
