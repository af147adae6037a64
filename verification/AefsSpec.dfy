/** The AEFS image as values: inodes, data blocks, and what it means for an image
    to hold a directory tree. */
module AefsSpec {

  const BLOCK_SIZE: nat := 1024
  const INODE_BLOCKS: nat := 5
  const ENTRY_SIZE: nat := 256
  const PER_BLOCK: nat := 4
  const NAME_LEN: nat := 254
  const REG: nat := 0
  const DIR: nat := 1
  const WORD: nat := 0x1_0000_0000

  newtype Byte = x: int | 0 <= x < 256

  datatype Node = File(data: seq<Byte>) | Dir(entries: seq<Named>)
  datatype Named = Named(name: seq<Byte>, node: Node)

  datatype Inode = Inode(kind: nat, sizeHigh: nat, sizeLow: nat, blocks: seq<nat>, tail: nat) {
    function Size(): nat { sizeHigh * 0x10000 + sizeLow }
  }
  const ZERO_INODE: Inode := Inode(0, 0, 0, [0, 0, 0, 0, 0], 0)

  /** The fields fit in the bytes of the inode record. */
  predicate Stored(inode: Inode) {
    && inode.kind < 0x100 && inode.sizeHigh < 0x100 && inode.sizeLow < 0x10000 && inode.tail < 0x10000
    && |inode.blocks| == INODE_BLOCKS && forall i :: 0 <= i < INODE_BLOCKS ==> inode.blocks[i] < 0x10000
  }

  type Block = seq<Byte>

  /** The 32-bit division of the packer, which wraps for zero. */
  function DivCeil(num: nat, den: nat): nat
    requires den > 0
  {
    (num - 1) % WORD / den + 1
  }

  /** Blocks for `size` bytes, truncated to 16 bits as the packer stores it. */
  function BlocksFor(size: nat): nat {
    DivCeil(size, BLOCK_SIZE) % 0x10000
  }

  /** Truncation makes the wrap for empty contents harmless. */
  lemma BlocksForIs(size: nat)
    requires size < 0x100_0000
    ensures BlocksFor(size) == (size + BLOCK_SIZE - 1) / BLOCK_SIZE
  {
    if size == 0 {
      assert DivCeil(0, BLOCK_SIZE) == 0x40_0000;
    }
  }

  /** Tail inodes for `k` blocks. */
  function Tails(k: nat): nat {
    if k == 0 then 0 else (k - 1) / INODE_BLOCKS
  }

  ghost function InodesOf(t: Node): nat
    decreases t, 1
  {
    match t
    case File(data) => 1 + Tails(BlocksFor(|data|))
    case Dir(es) => 1 + SumInodes(es) + Tails(BlocksFor(ENTRY_SIZE * |es|))
  }

  ghost function SumInodes(es: seq<Named>): nat
    decreases es, 0
  {
    if es == [] then 0 else SumInodes(es[..|es| - 1]) + InodesOf(es[|es| - 1].node)
  }

  ghost function BlocksOf(t: Node): nat
    decreases t, 1
  {
    match t
    case File(data) => BlocksFor(|data|)
    case Dir(es) => BlocksFor(ENTRY_SIZE * |es|) + SumBlocks(es)
  }

  ghost function SumBlocks(es: seq<Named>): nat
    decreases es, 0
  {
    if es == [] then 0 else SumBlocks(es[..|es| - 1]) + BlocksOf(es[|es| - 1].node)
  }

  // ----- what may be packed

  ghost predicate GoodName(name: seq<Byte>) {
    1 <= |name| < NAME_LEN && forall i :: 0 <= i < |name| ==> name[i] != 0
  }

  /** Sizes fit in 24 bits and names in a directory entry. */
  ghost predicate Packable(t: Node)
    decreases t
  {
    match t
    case File(data) => |data| < 0x100_0000
    case Dir(es) =>
      && ENTRY_SIZE * |es| < 0x100_0000
      && forall i :: 0 <= i < |es| ==> GoodName(es[i].name) && Packable(es[i].node)
  }

  // ----- what an image holds

  /** The `q`-th inode of a chain whose tails are numbered from `ts` on. */
  function ChainInode(id: nat, ts: nat, q: nat): nat {
    if q == 0 then id else ts + q - 1
  }

  /** The chain from inode `id` lists the blocks `start` up to `start + k`. */
  ghost predicate Chain(ins: seq<Inode>, id: nat, ts: nat, k: nat, start: nat) {
    && id < |ins| && ts + Tails(k) <= |ins|
    && (forall j :: 0 <= j < k ==>
          var q := ChainInode(id, ts, j / INODE_BLOCKS);
          q < |ins| && |ins[q].blocks| == INODE_BLOCKS && ins[q].blocks[j % INODE_BLOCKS] == start + j)
    && (forall q :: 0 <= q <= Tails(k) ==>
          && ChainInode(id, ts, q) < |ins|
          && ins[ChainInode(id, ts, q)].tail == if q < Tails(k) then ts + q else 0)
  }

  /** Blocks from `start` on begin with the bytes of `data`. */
  ghost predicate Holds(bls: seq<Block>, start: nat, data: seq<Byte>) {
    forall j :: 0 <= j < |data| ==>
      && start + j / BLOCK_SIZE < |bls|
      && j % BLOCK_SIZE < |bls[start + j / BLOCK_SIZE]|
      && bls[start + j / BLOCK_SIZE][j % BLOCK_SIZE] == data[j]
  }

  function Zeros(n: nat): (z: seq<Byte>)
    ensures |z| == n && forall i :: 0 <= i < n ==> z[i] == 0
  {
    seq(n, i => 0)
  }

  /** A directory entry on disk: the padded name and the inode number. */
  function EntryBytes(name: seq<Byte>, id: nat): seq<Byte>
    requires |name| <= NAME_LEN && id < 0x10000
  {
    name + Zeros(NAME_LEN - |name|) + [(id % 256) as Byte, (id / 256) as Byte]
  }

  /** Entry `i` of a directory whose blocks start at `start`. */
  ghost predicate EntryAt(bls: seq<Block>, start: nat, i: nat, name: seq<Byte>, id: nat) {
    && |name| <= NAME_LEN && id < 0x10000
    && start + i / PER_BLOCK < |bls| && |bls[start + i / PER_BLOCK]| == BLOCK_SIZE
    && bls[start + i / PER_BLOCK][i % PER_BLOCK * ENTRY_SIZE..i % PER_BLOCK * ENTRY_SIZE + ENTRY_SIZE] ==
        EntryBytes(name, id)
  }

  /** The entries from `i` on in a directory's `k` blocks are blank. */
  ghost predicate Unused(bls: seq<Block>, start: nat, i: nat, k: nat) {
    forall j :: i <= j < PER_BLOCK * k ==> EntryAt(bls, start, j, [], 0)
  }

  ghost function ChildId(id: nat, es: seq<Named>, i: nat): nat
    requires i <= |es|
  {
    id + 1 + SumInodes(es[..i])
  }

  ghost function ChildBlock(start: nat, es: seq<Named>, i: nat): nat
    requires i <= |es|
  {
    start + BlocksFor(ENTRY_SIZE * |es|) + SumBlocks(es[..i])
  }

  /** Inode `id` and the blocks from `start` on hold the tree `t`, in the inodes
      and blocks that `t` takes up and no others. */
  ghost predicate Encodes(ins: seq<Inode>, bls: seq<Block>, id: nat, start: nat, t: Node)
    decreases t
  {
    && id + InodesOf(t) <= |ins| && start + BlocksOf(t) <= |bls|
    && match t
       case File(data) =>
         && ins[id].kind == REG && ins[id].Size() == |data|
         && Chain(ins, id, id + 1, BlocksFor(|data|), start)
         && Holds(bls, start, data)
       case Dir(es) =>
         && ins[id].kind == DIR && ins[id].Size() == ENTRY_SIZE * |es|
         && Chain(ins, id, ChildId(id, es, |es|), BlocksFor(ENTRY_SIZE * |es|), start)
         && (es == [] ==> ins[id].blocks == ZERO_INODE.blocks)
         && Unused(bls, start, |es|, BlocksFor(ENTRY_SIZE * |es|))
         && forall i :: 0 <= i < |es| ==>
              && EntryAt(bls, start, i, es[i].name, ChildId(id, es, i))
              && Encodes(ins, bls, ChildId(id, es, i), ChildBlock(start, es, i), es[i].node)
  }

  // ----- sizes

  lemma {:induction false} InodesPositive(t: Node)
    ensures InodesOf(t) >= 1
  {
  }

  lemma SumStep(es: seq<Named>, i: nat)
    requires i < |es|
    ensures SumInodes(es[..i + 1]) == SumInodes(es[..i]) + InodesOf(es[i].node)
    ensures SumBlocks(es[..i + 1]) == SumBlocks(es[..i]) + BlocksOf(es[i].node)
  {
    assert es[..i + 1][..i] == es[..i];
  }

  lemma {:induction false} SumMonotone(es: seq<Named>, i: nat, j: nat)
    requires i <= j <= |es|
    ensures SumInodes(es[..i]) <= SumInodes(es[..j]) && SumBlocks(es[..i]) <= SumBlocks(es[..j])
    decreases j - i
  {
    if i == j {
    } else {
      SumStep(es, j - 1);
      SumMonotone(es, i, j - 1);
    }
  }

  /** Where child `i` lies inside its directory's inodes and blocks. */
  lemma ChildInside(id: nat, start: nat, es: seq<Named>, i: nat)
    requires i < |es|
    ensures id < ChildId(id, es, i)
    ensures ChildId(id, es, i) + InodesOf(es[i].node) == ChildId(id, es, i + 1)
    ensures ChildBlock(start, es, i) + BlocksOf(es[i].node) == ChildBlock(start, es, i + 1)
    ensures ChildId(id, es, i + 1) + Tails(BlocksFor(ENTRY_SIZE * |es|)) <= id + InodesOf(Dir(es))
    ensures ChildBlock(start, es, i + 1) <= start + BlocksOf(Dir(es))
  {
    SumStep(es, i);
    SumMonotone(es, i + 1, |es|);
    assert es[..|es|] == es;
  }

  // ----- an image that agrees on a tree's own inodes and blocks holds the tree

  ghost predicate Agree<T>(a: seq<T>, b: seq<T>, lo: nat, hi: nat) {
    && hi <= |a| && hi <= |b|
    && forall i :: lo <= i < hi ==> a[i] == b[i]
  }

  lemma ChainAgree(ins: seq<Inode>, ins': seq<Inode>, id: nat, ts: nat, k: nat, start: nat)
    requires Chain(ins, id, ts, k, start)
    requires |ins| == |ins'| && ins[id] == ins'[id] && Agree(ins, ins', ts, ts + Tails(k))
    ensures Chain(ins', id, ts, k, start)
  {
    forall q | 0 <= q <= Tails(k) ensures ins'[ChainInode(id, ts, q)] == ins[ChainInode(id, ts, q)] {
    }
    forall j | 0 <= j < k
      ensures var q := ChainInode(id, ts, j / INODE_BLOCKS);
              q < |ins| && |ins'[q].blocks| == INODE_BLOCKS && ins'[q].blocks[j % INODE_BLOCKS] == start + j
    {
      assert j / INODE_BLOCKS <= Tails(k);
    }
  }

  lemma EntryKept(bls: seq<Block>, bls': seq<Block>, start: nat, j: nat, name: seq<Byte>, id: nat)
    requires EntryAt(bls, start, j, name, id) && |bls| == |bls'|
    requires bls'[start + j / PER_BLOCK] == bls[start + j / PER_BLOCK]
    ensures EntryAt(bls', start, j, name, id)
  {
  }

  lemma UnusedKept(bls: seq<Block>, bls': seq<Block>, start: nat, i: nat, k: nat)
    requires Unused(bls, start, i, k) && |bls| == |bls'| && Agree(bls, bls', start, start + k)
    ensures Unused(bls', start, i, k)
  {
    hide EntryAt;
    forall j | i <= j < PER_BLOCK * k ensures EntryAt(bls', start, j, [], 0) {
      assert j / PER_BLOCK < k;
      EntryKept(bls, bls', start, j, [], 0);
    }
  }

  lemma {:induction false} EncodesAgree(ins: seq<Inode>, bls: seq<Block>, ins': seq<Inode>, bls': seq<Block>,
                                        id: nat, start: nat, t: Node)
    requires Packable(t) && Encodes(ins, bls, id, start, t)
    requires |ins| == |ins'| && |bls| == |bls'|
    requires Agree(ins, ins', id, id + InodesOf(t)) && Agree(bls, bls', start, start + BlocksOf(t))
    ensures Encodes(ins', bls', id, start, t)
    decreases t
  {
    match t
    case File(data) =>
      var k := BlocksFor(|data|);
      BlocksForIs(|data|);
      ChainAgree(ins, ins', id, id + 1, k, start);
      forall j | 0 <= j < |data|
        ensures bls[start + j / BLOCK_SIZE] == bls'[start + j / BLOCK_SIZE]
      {
        assert j / BLOCK_SIZE < k;
      }
    case Dir(es) =>
      var k := BlocksFor(ENTRY_SIZE * |es|);
      BlocksForIs(ENTRY_SIZE * |es|);
      assert es[..|es|] == es;
      ChainAgree(ins, ins', id, ChildId(id, es, |es|), k, start);
      UnusedKept(bls, bls', start, |es|, k);
      forall i | 0 <= i < |es|
        ensures EntryAt(bls', start, i, es[i].name, ChildId(id, es, i))
        ensures Encodes(ins', bls', ChildId(id, es, i), ChildBlock(start, es, i), es[i].node)
      {
        assert EntryAt(bls, start, i, es[i].name, ChildId(id, es, i));
        assert i / PER_BLOCK < k;
        ChildInside(id, start, es, i);
        EncodesAgree(ins, bls, ins', bls', ChildId(id, es, i), ChildBlock(start, es, i), es[i].node);
      }
  }

  // ----- building a chain block by block

  lemma TailsNext(i: nat)
    ensures Tails(i + 1) == if i % INODE_BLOCKS == 0 && i != 0 then Tails(i) + 1 else Tails(i)
    ensures i / INODE_BLOCKS == Tails(i + 1)
  {
  }

  /** The inode list after block number `i` has been entered. */
  function Entered(ins: seq<Inode>, id: nat, ts: nat, i: nat, start: nat): seq<Inode>
    requires id < |ins| && ts + Tails(i + 1) <= |ins| && ts > id
  {
    var last := ChainInode(id, ts, Tails(i));
    var ins1 := if i % INODE_BLOCKS == 0 && i != 0
                then TailsNext(i); ins[last := ins[last].(tail := ts + Tails(i))][ts + Tails(i) := ZERO_INODE]
                else ins;
    var cur := ChainInode(id, ts, Tails(i + 1));
    if |ins1[cur].blocks| == INODE_BLOCKS
    then ins1[cur := ins1[cur].(blocks := ins1[cur].blocks[i % INODE_BLOCKS := start + i])]
    else ins1
  }

  lemma ChainNext(ins: seq<Inode>, id: nat, ts: nat, i: nat, start: nat)
    requires Chain(ins, id, ts, i, start) && ts > id && ts + Tails(i + 1) <= |ins|
    requires |ins[ChainInode(id, ts, Tails(i))].blocks| == INODE_BLOCKS
    ensures Chain(Entered(ins, id, ts, i, start), id, ts, i + 1, start)
    ensures |Entered(ins, id, ts, i, start)[ChainInode(id, ts, Tails(i + 1))].blocks| == INODE_BLOCKS
  {
    TailsNext(i);
    var ins' := Entered(ins, id, ts, i, start);
    forall j | 0 <= j < i + 1
      ensures var q := ChainInode(id, ts, j / INODE_BLOCKS);
              q < |ins'| && |ins'[q].blocks| == INODE_BLOCKS && ins'[q].blocks[j % INODE_BLOCKS] == start + j
    {
      if j < i {
        var q := ChainInode(id, ts, j / INODE_BLOCKS);
        assert ins[q].blocks[j % INODE_BLOCKS] == start + j;
        assert j / INODE_BLOCKS == i / INODE_BLOCKS ==> j % INODE_BLOCKS != i % INODE_BLOCKS;
      }
    }
  }

  lemma TailsMonotone(i: nat, k: nat)
    requires i <= k
    ensures Tails(i) <= Tails(k)
  {
  }

  predicate SameHeader(a: Inode, b: Inode) {
    a.kind == b.kind && a.Size() == b.Size()
  }

  lemma EnteredFrame(ins: seq<Inode>, id: nat, ts: nat, i: nat, start: nat)
    requires id < |ins| && ts + Tails(i + 1) <= |ins| && ts > id
    ensures |Entered(ins, id, ts, i, start)| == |ins|
    ensures ChainInode(id, ts, Tails(i + 1)) < |ins|
    ensures SameHeader(Entered(ins, id, ts, i, start)[id], ins[id])
    ensures forall j :: 0 <= j < ts && j != id ==> Entered(ins, id, ts, i, start)[j] == ins[j]
    ensures forall j :: ts + Tails(i + 1) <= j < |ins| ==> Entered(ins, id, ts, i, start)[j] == ins[j]
  {
    TailsNext(i);
  }

  /** `ins` is `was` with the first `i` blocks from `start` on entered into inode `id`
      and tails numbered from `ts` on. */
  ghost predicate Filling(was: seq<Inode>, ins: seq<Inode>, id: nat, ts: nat, i: nat, start: nat) {
    && id < ts && ts + Tails(i) <= |ins| == |was|
    && Chain(ins, id, ts, i, start)
    && |ins[ChainInode(id, ts, Tails(i))].blocks| == INODE_BLOCKS
    && SameHeader(ins[id], was[id]) && (i == 0 ==> ins == was)
    && (forall j :: 0 <= j < ts && j != id ==> ins[j] == was[j])
    && (forall j :: ts + Tails(i) <= j < |ins| ==> ins[j] == was[j])
    && (forall j :: 0 <= j < |ins| ==> Stored(ins[j]))
  }

  lemma EnteredStored(ins: seq<Inode>, id: nat, ts: nat, i: nat, start: nat)
    requires id < |ins| && ts + Tails(i + 1) <= |ins| <= 0x10000 && ts > id && start + i < 0x10000
    requires forall j :: 0 <= j < |ins| ==> Stored(ins[j])
    ensures forall j :: 0 <= j < |ins| ==> Stored(Entered(ins, id, ts, i, start)[j])
  {
    TailsNext(i);
  }

  lemma FillingStart(was: seq<Inode>, id: nat, ts: nat, start: nat)
    requires id < ts <= |was| && was[id].tail == 0 && forall j :: 0 <= j < |was| ==> Stored(was[j])
    ensures Tails(0) == 0 && ChainInode(id, ts, 0) == id && Filling(was, was, id, ts, 0, start)
  {
  }

  lemma FillingDone(was: seq<Inode>, ins: seq<Inode>, id: nat, ts: nat, k: nat, start: nat)
    requires Filling(was, ins, id, ts, k, start)
    ensures id < ts && ts + Tails(k) <= |ins| == |was|
    ensures Chain(ins, id, ts, k, start) && SameHeader(ins[id], was[id]) && (k == 0 ==> ins == was)
    ensures forall j :: 0 <= j < ts && j != id ==> ins[j] == was[j]
    ensures forall j :: ts + Tails(k) <= j < |ins| ==> ins[j] == was[j]
    ensures forall j :: 0 <= j < |ins| ==> Stored(ins[j])
  {
    hide Chain, Stored;
  }

  lemma FillingList(was: seq<Inode>, ins: seq<Inode>, id: nat, ts: nat, i: nat, start: nat)
    requires Filling(was, ins, id, ts, i, start)
    ensures id < ts && ChainInode(id, ts, Tails(i)) < |ins| == |was|
    ensures |ins[ChainInode(id, ts, Tails(i))].blocks| == INODE_BLOCKS
  {
    hide Chain, Stored;
  }

  lemma FillingNext(was: seq<Inode>, ins: seq<Inode>, id: nat, ts: nat, i: nat, start: nat)
    requires Filling(was, ins, id, ts, i, start) && ts + Tails(i + 1) <= |ins| <= 0x10000 && start + i < 0x10000
    ensures Filling(was, Entered(ins, id, ts, i, start), id, ts, i + 1, start)
  {
    hide Chain, Entered, Tails, Stored;
    TailsMonotone(i, i + 1);
    ChainNext(ins, id, ts, i, start);
    EnteredFrame(ins, id, ts, i, start);
    EnteredStored(ins, id, ts, i, start);
  }

  lemma HoldsNext(bls: seq<Block>, start: nat, data: seq<Byte>, j: nat, n: nat)
    requires n <= BLOCK_SIZE && j * BLOCK_SIZE + n <= |data| && start + j < |bls| && |bls[start + j]| == BLOCK_SIZE
    requires Holds(bls, start, data[..j * BLOCK_SIZE])
    ensures
      var blk := data[j * BLOCK_SIZE..j * BLOCK_SIZE + n] + bls[start + j][n..];
      |blk| == BLOCK_SIZE && Holds(bls[start + j := blk], start, data[..j * BLOCK_SIZE + n])
  {
    var pos := j * BLOCK_SIZE;
    var blk := data[pos..pos + n] + bls[start + j][n..];
    var bls' := bls[start + j := blk];
    forall i | 0 <= i < pos + n
      ensures
        && start + i / BLOCK_SIZE < |bls'|
        && i % BLOCK_SIZE < |bls'[start + i / BLOCK_SIZE]|
        && bls'[start + i / BLOCK_SIZE][i % BLOCK_SIZE] == data[i]
    {
      if i < pos {
        assert data[..pos][i] == data[i] && i / BLOCK_SIZE < j;
      } else {
        assert i / BLOCK_SIZE == j && i % BLOCK_SIZE == i - pos;
      }
    }
  }

  lemma HoldsNothing(bls: seq<Block>, start: nat)
    ensures Holds(bls, start, [])
  {
  }

  /** A file whose bytes are copied and whose chain is filled in. */
  lemma FilePacked(ins: seq<Inode>, bls: seq<Block>, id: nat, start: nat, t: Node)
    requires t.File? && id + InodesOf(t) <= |ins| && start + BlocksOf(t) <= |bls| && id < |ins|
    requires ins[id].kind == REG && ins[id].Size() == |t.data|
    requires Chain(ins, id, id + 1, BlocksFor(|t.data|), start) && Holds(bls, start, t.data)
    ensures Encodes(ins, bls, id, start, t)
  {
    hide Chain, Holds, BlocksFor;
  }

  lemma PackableFile(t: Node)
    requires t.File? && Packable(t)
    ensures |t.data| < 0x100_0000 && BlocksFor(|t.data|) == (|t.data| + BLOCK_SIZE - 1) / BLOCK_SIZE
  {
    BlocksForIs(|t.data|);
  }

  lemma FileSizes(t: Node)
    requires t.File?
    ensures InodesOf(t) == 1 + Tails(BlocksFor(|t.data|)) && BlocksOf(t) == BlocksFor(|t.data|)
  {
  }

  // ----- packing a directory child by child

  /** The first `i` children are packed and entered. */
  ghost predicate Prefix(ins: seq<Inode>, bls: seq<Block>, id: nat, start: nat, es: seq<Named>, i: nat)
    requires i <= |es|
  {
    forall j :: 0 <= j < i ==>
      && EntryAt(bls, start, j, es[j].name, ChildId(id, es, j))
      && Encodes(ins, bls, ChildId(id, es, j), ChildBlock(start, es, j), es[j].node)
  }

  lemma ChildBefore(id: nat, start: nat, es: seq<Named>, j: nat, i: nat)
    requires j < i <= |es|
    ensures id < ChildId(id, es, j) && ChildId(id, es, j) + InodesOf(es[j].node) <= ChildId(id, es, i)
    ensures start + BlocksFor(ENTRY_SIZE * |es|) <= ChildBlock(start, es, j)
    ensures ChildBlock(start, es, j) + BlocksOf(es[j].node) <= ChildBlock(start, es, i)
  {
    SumStep(es, j);
    SumMonotone(es, j + 1, i);
  }

  lemma ChildBlockPast(start: nat, es: seq<Named>, i: nat)
    requires i <= |es|
    ensures start + BlocksFor(ENTRY_SIZE * |es|) <= ChildBlock(start, es, i)
  {
  }

  /** Changes past the first `i` children leave them packed. */
  lemma PrefixKept(ins: seq<Inode>, bls: seq<Block>, ins': seq<Inode>, bls': seq<Block>,
                   id: nat, start: nat, es: seq<Named>, i: nat)
    requires i <= |es| && Packable(Dir(es)) && Prefix(ins, bls, id, start, es, i)
    requires |ins| == |ins'| && |bls| == |bls'|
    requires Agree(ins, ins', id + 1, ChildId(id, es, i)) && Agree(bls, bls', start, ChildBlock(start, es, i))
    ensures Prefix(ins', bls', id, start, es, i)
  {
    hide Encodes;
    BlocksForIs(ENTRY_SIZE * |es|);
    forall j | 0 <= j < i
      ensures EntryAt(bls', start, j, es[j].name, ChildId(id, es, j))
      ensures Encodes(ins', bls', ChildId(id, es, j), ChildBlock(start, es, j), es[j].node)
    {
      ChildBefore(id, start, es, j, i);
      assert j / PER_BLOCK < BlocksFor(ENTRY_SIZE * |es|);
      EntryKept(bls, bls', start, j, es[j].name, ChildId(id, es, j));
      EncodesAgree(ins, bls, ins', bls', ChildId(id, es, j), ChildBlock(start, es, j), es[j].node);
    }
  }

  /** A block with entry `i` written into its place. */
  function WithEntry(blk: Block, i: nat, entry: seq<Byte>): (r: Block)
    requires |blk| == BLOCK_SIZE && |entry| == ENTRY_SIZE
    ensures |r| == BLOCK_SIZE
  {
    var at := i % PER_BLOCK * ENTRY_SIZE;
    blk[..at] + entry + blk[at + ENTRY_SIZE..]
  }

  lemma EntryWritten(bls: seq<Block>, start: nat, i: nat, name: seq<Byte>, id: nat)
    requires start + i / PER_BLOCK < |bls| && |bls[start + i / PER_BLOCK]| == BLOCK_SIZE
    requires |name| <= NAME_LEN && id < 0x10000
    ensures |EntryBytes(name, id)| == ENTRY_SIZE
    ensures
      var b := start + i / PER_BLOCK;
      EntryAt(bls[b := WithEntry(bls[b], i, EntryBytes(name, id))], start, i, name, id)
  {
    var b, at := start + i / PER_BLOCK, i % PER_BLOCK * ENTRY_SIZE;
    assert WithEntry(bls[b], i, EntryBytes(name, id))[at..at + ENTRY_SIZE] == EntryBytes(name, id);
  }

  lemma OtherSlot(blk: Block, i: nat, entry: seq<Byte>, j: nat)
    requires |blk| == BLOCK_SIZE && |entry| == ENTRY_SIZE && i % PER_BLOCK != j % PER_BLOCK
    ensures
      var at := j % PER_BLOCK * ENTRY_SIZE;
      WithEntry(blk, i, entry)[at..at + ENTRY_SIZE] == blk[at..at + ENTRY_SIZE]
  {
    var r, at := WithEntry(blk, i, entry), j % PER_BLOCK * ENTRY_SIZE;
    assert i % PER_BLOCK < j % PER_BLOCK || j % PER_BLOCK < i % PER_BLOCK;
    forall c | at <= c < at + ENTRY_SIZE ensures r[c] == blk[c] {
    }
  }

  lemma OtherEntryKept(bls: seq<Block>, start: nat, i: nat, entry: seq<Byte>, j: nat, name: seq<Byte>, id: nat)
    requires start + i / PER_BLOCK < |bls| && |bls[start + i / PER_BLOCK]| == BLOCK_SIZE && |entry| == ENTRY_SIZE
    requires i != j && EntryAt(bls, start, j, name, id)
    ensures
      var b := start + i / PER_BLOCK;
      EntryAt(bls[b := WithEntry(bls[b], i, entry)], start, j, name, id)
  {
    var b := start + i / PER_BLOCK;
    if j / PER_BLOCK == i / PER_BLOCK {
      assert i % PER_BLOCK != j % PER_BLOCK;
      OtherSlot(bls[b], i, entry, j);
    }
  }

  /** Cleared blocks hold blank entries only. */
  lemma UnusedStart(bls: seq<Block>, start: nat, k: nat)
    requires start + k <= |bls| && forall b :: start <= b < start + k ==> bls[b] == Zeros(BLOCK_SIZE)
    ensures Unused(bls, start, 0, k)
  {
    forall j | 0 <= j < PER_BLOCK * k ensures EntryAt(bls, start, j, [], 0) {
      assert j / PER_BLOCK < k;
      var at := j % PER_BLOCK * ENTRY_SIZE;
      assert Zeros(BLOCK_SIZE)[at..at + ENTRY_SIZE] == EntryBytes([], 0);
    }
  }

  lemma UnusedNext(bls: seq<Block>, start: nat, i: nat, k: nat, entry: seq<Byte>)
    requires start + i / PER_BLOCK < |bls| && |bls[start + i / PER_BLOCK]| == BLOCK_SIZE && |entry| == ENTRY_SIZE
    requires Unused(bls, start, i, k)
    ensures
      var b := start + i / PER_BLOCK;
      Unused(bls[b := WithEntry(bls[b], i, entry)], start, i + 1, k)
  {
    hide EntryAt, WithEntry;
    var b := start + i / PER_BLOCK;
    var bls' := bls[b := WithEntry(bls[b], i, entry)];
    forall j | i + 1 <= j < PER_BLOCK * k ensures EntryAt(bls', start, j, [], 0) {
      OtherEntryKept(bls, start, i, entry, j, [], 0);
    }
  }

  /** Entering child `i`, once it is packed. */
  lemma PrefixNext(ins: seq<Inode>, bls: seq<Block>, id: nat, start: nat, es: seq<Named>, i: nat)
    requires i < |es| && Packable(Dir(es)) && Prefix(ins, bls, id, start, es, i)
    requires Encodes(ins, bls, ChildId(id, es, i), ChildBlock(start, es, i), es[i].node)
    requires ChildId(id, es, i) < 0x10000 && start + BlocksFor(ENTRY_SIZE * |es|) <= |bls|
    requires start + i / PER_BLOCK < |bls| && |bls[start + i / PER_BLOCK]| == BLOCK_SIZE
    requires |EntryBytes(es[i].name, ChildId(id, es, i))| == ENTRY_SIZE
    ensures
      var b := start + i / PER_BLOCK;
      Prefix(ins, bls[b := WithEntry(bls[b], i, EntryBytes(es[i].name, ChildId(id, es, i)))], id, start, es, i + 1)
  {
    hide Encodes, EntryAt, EntryBytes, WithEntry;
    var b, entry := start + i / PER_BLOCK, EntryBytes(es[i].name, ChildId(id, es, i));
    var bls' := bls[b := WithEntry(bls[b], i, entry)];
    BlocksForIs(ENTRY_SIZE * |es|);
    assert i / PER_BLOCK < BlocksFor(ENTRY_SIZE * |es|);
    forall j | 0 <= j < i + 1
      ensures EntryAt(bls', start, j, es[j].name, ChildId(id, es, j))
      ensures Encodes(ins, bls', ChildId(id, es, j), ChildBlock(start, es, j), es[j].node)
    {
      if j < i {
        OtherEntryKept(bls, start, i, entry, j, es[j].name, ChildId(id, es, j));
      } else {
        EntryWritten(bls, start, i, es[i].name, ChildId(id, es, i));
      }
      ChildBefore(id, start, es, j, i + 1);
      EncodesBounds(ins, bls, ChildId(id, es, j), ChildBlock(start, es, j), es[j].node);
      EncodesAgree(ins, bls, ins, bls', ChildId(id, es, j), ChildBlock(start, es, j), es[j].node);
    }
  }

  lemma EncodesBounds(ins: seq<Inode>, bls: seq<Block>, id: nat, start: nat, t: Node)
    requires Encodes(ins, bls, id, start, t)
    ensures id + InodesOf(t) <= |ins| && start + BlocksOf(t) <= |bls| && id < |ins|
  {
    InodesPositive(t);
  }

  lemma PackableChild(es: seq<Named>, i: nat)
    requires Packable(Dir(es)) && i < |es|
    ensures Packable(es[i].node) && GoodName(es[i].name)
  {
  }

  /** Clearing a directory's blocks counts bytes in 32 bits, which agrees with the
      16-bit block count. */
  lemma PackableSize(es: seq<Named>)
    requires Packable(Dir(es))
    ensures ENTRY_SIZE * |es| < 0x100_0000
    ensures BLOCK_SIZE * DivCeil(ENTRY_SIZE * |es|, BLOCK_SIZE) % WORD / BLOCK_SIZE == BlocksFor(ENTRY_SIZE * |es|)
  {
    BlocksForIs(ENTRY_SIZE * |es|);
  }

  lemma NoBlocks(es: seq<Named>)
    ensures es == [] ==> BlocksFor(ENTRY_SIZE * |es|) == 0
  {
    BlocksForIs(0);
  }

  lemma EntryPlace(es: seq<Named>, i: nat)
    requires Packable(Dir(es)) && i < |es|
    ensures i / PER_BLOCK < BlocksFor(ENTRY_SIZE * |es|)
  {
    BlocksForIs(ENTRY_SIZE * |es|);
  }

  lemma DirSizes(es: seq<Named>)
    ensures InodesOf(Dir(es)) == 1 + SumInodes(es) + Tails(BlocksFor(ENTRY_SIZE * |es|))
    ensures BlocksOf(Dir(es)) == BlocksFor(ENTRY_SIZE * |es|) + SumBlocks(es)
    ensures es[..|es|] == es && SumInodes(es[..0]) == 0 && SumBlocks(es[..0]) == 0
  {
  }

  lemma PrefixStart(ins: seq<Inode>, bls: seq<Block>, id: nat, start: nat, es: seq<Named>)
    ensures Prefix(ins, bls, id, start, es, 0)
  {
  }

  /** A directory whose children are all entered and whose chain is filled in. */
  lemma DirPacked(ins: seq<Inode>, ins': seq<Inode>, bls: seq<Block>, id: nat, start: nat, es: seq<Named>)
    requires Packable(Dir(es)) && Prefix(ins, bls, id, start, es, |es|) && |ins| == |ins'|
    requires id + InodesOf(Dir(es)) <= |ins| && start + BlocksOf(Dir(es)) <= |bls|
    requires Agree(ins, ins', id + 1, ChildId(id, es, |es|))
    requires ins'[id].kind == DIR && ins'[id].Size() == ENTRY_SIZE * |es|
    requires Chain(ins', id, ChildId(id, es, |es|), BlocksFor(ENTRY_SIZE * |es|), start)
    requires es == [] ==> ins'[id].blocks == ZERO_INODE.blocks
    requires Unused(bls, start, |es|, BlocksFor(ENTRY_SIZE * |es|))
    ensures Encodes(ins', bls, id, start, Dir(es))
  {
    DirSizes(es);
    PrefixKept(ins, bls, ins', bls, id, start, es, |es|);
  }
}
