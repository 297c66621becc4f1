/** Counting: the allocated blocks are exactly those that the files call for. */
module Conservation {
  import opened Layout
  import opened DiskImage
  import opened Bitmap
  import opened InodeTable
  import opened FileOps
  import opened Ownership
  import opened Files

  /** Blocks that the files with numbers below n occupy, indirect blocks included. */
  function Demand(m: FileMap, n: nat): nat
    decreases n, |m|
  {
    if n == 0 then 0
    else Demand(m, n - 1) + if n - 1 in m then SlotCount(|m[n - 1].bytes|) else 0
  }

  /** All slots of a file, in order, the indirect block last. */
  function SlotSeq(d: Image, x: Inode): (ids: seq<u32>)
    requires x.size <= MAX_BYTES
    ensures |ids| == SlotCount(x.size)
  {
    seq<u32>(BlocksFor(x.size), k requires 0 <= k < BlocksFor(x.size) => SlotId(d, x, k))
    + if BlocksFor(x.size) > NDIRECT then [x.blocks[NDIRECT]] else []
  }

  /** The slot at position p of that sequence. */
  function SlotAt(x: Inode, p: nat): nat {
    if p < BlocksFor(x.size) then p else INDIRECT_SLOT
  }

  ghost function OwnedBy(ow: Owners, i: nat): set<nat> {
    set b | b in ow && ow[b].i == i
  }

  ghost function OwnedBelow(ow: Owners, n: nat): set<nat> {
    set b | b in ow && ow[b].i < n
  }

  lemma SlotSeqOwned(d: Image, x: Inode, ow: Owners, i: nat)
    requires FileOk(d, x, ow, i)
    ensures forall p :: 0 <= p < SlotCount(x.size) ==>
              SlotSeq(d, x)[p] in ow && ow[SlotSeq(d, x)[p] as nat] == Slot(i, SlotAt(x, p))
    ensures OwnedBy(ow, i) == Ids(SlotSeq(d, x))
  {
    var ids, m := SlotSeq(d, x), SlotMap(d, x);
    forall p | 0 <= p < |ids|
      ensures ids[p] in ow && ow[ids[p] as nat] == Slot(i, SlotAt(x, p))
    {
      assert UsesSlot(x.size, SlotAt(x, p)) && SlotAt(x, p) in m && m[SlotAt(x, p)] == ids[p];
    }
    forall b | b in OwnedBy(ow, i)
      ensures b in Ids(ids)
    {
      var k := ow[b].k;
      assert k in m && m[k] == b;
      assert ids[if k == INDIRECT_SLOT then BlocksFor(x.size) else k] == b;
    }
  }

  /** A file owns as many blocks as it has slots. */
  lemma OwnedCount(d: Image, x: Inode, ow: Owners, i: nat)
    requires FileOk(d, x, ow, i)
    ensures |OwnedBy(ow, i)| == SlotCount(x.size)
  {
    SlotSeqOwned(d, x, ow, i);
    DistinctCount(SlotSeq(d, x));
  }

  lemma SplitLast(ow: Owners, i: nat)
    ensures |OwnedBelow(ow, i + 1)| == |OwnedBelow(ow, i)| + |OwnedBy(ow, i)|
  {
    assert OwnedBelow(ow, i + 1) == OwnedBelow(ow, i) + OwnedBy(ow, i);
    assert OwnedBelow(ow, i) !! OwnedBy(ow, i);
  }

  lemma {:induction false} CountBelow(ow: Owners, m: FileMap, n: nat)
    requires forall i: nat :: i < n ==> |OwnedBy(ow, i)| == if i in m then SlotCount(|m[i].bytes|) else 0
    ensures |OwnedBelow(ow, n)| == Demand(m, n)
    decreases n
  {
    if n == 0 {
      assert OwnedBelow(ow, 0) == {};
    } else {
      CountBelow(ow, m, n - 1);
      SplitLast(ow, n - 1);
      assert |OwnedBy(ow, n - 1)| == if n - 1 in m then SlotCount(|m[n - 1].bytes|) else 0;
    }
  }

  lemma OneMoreOwner(used: set<nat>, t: seq<Inode>, d: Image, ow: Owners, i: nat)
    requires Agrees(used, t, d, ow) && i < |t|
    ensures var m := FilesIn(d, t);
            |OwnedBy(ow, i)| == if i in m then SlotCount(|m[i].bytes|) else 0
  {
    if Live(t, i) {
      assert FileOk(d, t[i], ow, i);
      OwnedCount(d, t[i], ow, i);
    } else {
      assert OwnedBy(ow, i) == {};
    }
  }

  /** Conservation: on a consistent disk the number of allocated blocks is what the files call for. */
  lemma BlocksConserved(d: Image)
    requires Inv(d)
    ensures |Used(d)| == Demand(FilesOf(d), INODE_NUM)
  {
    var ow :| Consistent(d, ow);
    AllOwned(Used(d), Table(d), d, ow);
  }

  lemma AllOwned(used: set<nat>, t: seq<Inode>, d: Image, ow: Owners)
    requires Agrees(used, t, d, ow)
    ensures |used| == Demand(FilesIn(d, t), |t|)
  {
    forall i: nat | i < |t|
      ensures var m := FilesIn(d, t);
              |OwnedBy(ow, i)| == if i in m then SlotCount(|m[i].bytes|) else 0
    {
      OneMoreOwner(used, t, d, ow, i);
    }
    CountBelow(ow, FilesIn(d, t), |t|);
    assert used == OwnedBelow(ow, |t|);
  }

  // ---- the invariant without its owner map ----------------------------------------------------------------

  /** Slot k of live inode i refers to block b. */
  ghost predicate Refers(d: Image, t: seq<Inode>, i: nat, k: nat, b: nat) {
    Live(t, i) && k <= INDIRECT_SLOT && UsesSlot(t[i].size, k) && SlotId(d, t[i], k) == b
  }

  /** Exclusive ownership stated directly: blocks in range, no block used twice, allocated exactly when used. */
  ghost predicate ExclusiveOwnership(used: set<nat>, t: seq<Inode>, d: Image) {
    && (forall i: nat :: Live(t, i) ==> InodeOk(t[i]))
    && (forall i: nat, k: nat, b: nat :: Refers(d, t, i, k, b) ==> FIRST_DATA <= b < BLOCK_NUM && b in used)
    && (forall i: nat, k: nat, j: nat, l: nat, b: nat ::
          Refers(d, t, i, k, b) && Refers(d, t, j, l, b) ==> i == j && k == l)
    && (forall b: nat :: b in used ==> exists i: nat, k: nat :: Refers(d, t, i, k, b))
  }

  /** The owner map exists precisely when ownership is exclusive. */
  lemma InvIsExclusiveOwnership(d: Image)
    ensures Inv(d) <==> ExclusiveOwnership(Used(d), Table(d), d)
  {
    if Inv(d) {
      var ow :| Consistent(d, ow);
      AgreesIsExclusive(Used(d), Table(d), d, ow);
    }
    if ExclusiveOwnership(Used(d), Table(d), d) {
      var ow := ExclusiveAgrees(Used(d), Table(d), d);
      assert Consistent(d, ow);
    }
  }

  lemma RefersOwned(used: set<nat>, t: seq<Inode>, d: Image, ow: Owners, i: nat, k: nat, b: nat)
    requires Agrees(used, t, d, ow) && Refers(d, t, i, k, b)
    ensures b in ow && ow[b] == Slot(i, k)
  {
    assert FileOk(d, t[i], ow, i);
    var m := SlotMap(d, t[i]);
    assert k in m && m[k] == b;
  }

  lemma OwnedRefers(used: set<nat>, t: seq<Inode>, d: Image, ow: Owners, b: nat)
    requires Agrees(used, t, d, ow) && b in ow
    ensures Refers(d, t, ow[b].i, ow[b].k, b)
  {
    var i := ow[b].i;
    assert Live(t, i) && FileOk(d, t[i], ow, i);
  }

  lemma AgreesIsExclusive(used: set<nat>, t: seq<Inode>, d: Image, ow: Owners)
    requires Agrees(used, t, d, ow)
    ensures ExclusiveOwnership(used, t, d)
  {
    forall i: nat | Live(t, i)
      ensures InodeOk(t[i])
    {
      assert FileOk(d, t[i], ow, i);
    }
    forall i: nat, k: nat, b: nat | Refers(d, t, i, k, b)
      ensures b in ow && ow[b] == Slot(i, k)
    {
      RefersOwned(used, t, d, ow, i, k, b);
    }
    forall b: nat | b in used
      ensures exists i: nat, k: nat :: Refers(d, t, i, k, b)
    {
      OwnedRefers(used, t, d, ow, b);
    }
  }

  lemma ExclusiveAgrees(used: set<nat>, t: seq<Inode>, d: Image) returns (ow: Owners)
    requires ExclusiveOwnership(used, t, d)
    ensures Agrees(used, t, d, ow)
  {
    ow := map b | b in used :: var i: nat, k: nat :| Refers(d, t, i, k, b); Slot(i, k);
    forall b | b in ow
      ensures Refers(d, t, ow[b].i, ow[b].k, b)
    {
    }
    forall i: nat | Live(t, i)
      ensures FileOk(d, t[i], ow, i)
    {
      ExclusiveFile(used, t, d, ow, i);
    }
  }

  lemma ExclusiveFile(used: set<nat>, t: seq<Inode>, d: Image, ow: Owners, i: nat)
    requires ExclusiveOwnership(used, t, d) && Live(t, i) && ow.Keys == used
    requires forall b :: b in ow ==> Refers(d, t, ow[b].i, ow[b].k, b)
    ensures FileOk(d, t[i], ow, i)
  {
    var m := SlotMap(d, t[i]);
    forall k | k in m
      ensures m[k] in ow && ow[m[k]] == Slot(i, k)
    {
      assert Refers(d, t, i, k, m[k]);
      assert Refers(d, t, ow[m[k]].i, ow[m[k]].k, m[k]);
    }
    forall b | b in ow && ow[b].i == i
      ensures ow[b].k in m && m[ow[b].k] == b
    {
      assert Refers(d, t, i, ow[b].k, b);
    }
  }
}
