/** The AEFS packer: a directory tree written into an image that starts out zero,
    with running counters for the next free inode and block. */
module Mkfs {
  import opened AefsSpec

  class Packer {
    const inodes: array<Inode>
    const blocks: array<Block>
    var nextInode: nat
    var nextBlock: nat

    /** Block contents have block size, numbers fit in 16 bits and inodes in their
        records, and what is not yet handed out is zero. */
    ghost predicate Valid()
      reads this, inodes, blocks
    {
      && inodes.Length <= 0x10000 && blocks.Length <= 0x10000
      && nextInode <= inodes.Length && nextBlock <= blocks.Length
      && (forall b :: 0 <= b < blocks.Length ==> |blocks[b]| == BLOCK_SIZE)
      && (forall b :: nextBlock <= b < blocks.Length ==> blocks[b] == Zeros(BLOCK_SIZE))
      && (forall i :: nextInode <= i < inodes.Length ==> inodes[i] == ZERO_INODE)
      && (forall i :: 0 <= i < inodes.Length ==> Stored(inodes[i]))
    }

    constructor (numInodes: nat, numBlocks: nat)
      requires 1 <= numInodes <= 0x10000 && numBlocks <= 0x10000
      ensures Valid() && nextInode == 1 && nextBlock == 0 && inodes[0] == ZERO_INODE
      ensures fresh(inodes) && fresh(blocks) && inodes.Length == numInodes && blocks.Length == numBlocks
    {
      inodes := new Inode[numInodes](_ => ZERO_INODE);
      blocks := new Block[numBlocks](_ => Zeros(BLOCK_SIZE));
      nextInode, nextBlock := 1, 0;
    }

    method FillInodeSize(id: nat, kind: nat, size: nat)
      requires id < inodes.Length && size < 0x100_0000 && kind < 0x100
      modifies inodes
      ensures Stored(old(inodes[id])) ==> Stored(inodes[id])
      ensures inodes[id].kind == kind && inodes[id].Size() == size
      ensures inodes[id].blocks == old(inodes[id]).blocks && inodes[id].tail == old(inodes[id]).tail
      ensures forall i :: 0 <= i < inodes.Length && i != id ==> inodes[i] == old(inodes[i])
    {
      inodes[id] := inodes[id].(kind := kind, sizeLow := size % 0x10000, sizeHigh := size / 0x10000 % 0x100);
    }

    /** Enters block number `i` of a chain, in a new tail inode where one is due. */
    method EnterBlock(list: nat, i: nat, start: nat, ghost id: nat, ghost ts: nat) returns (cur: nat)
      requires id < ts && nextInode == ts + Tails(i) && ts + Tails(i + 1) <= inodes.Length
      requires list == ChainInode(id, ts, Tails(i)) && list < inodes.Length && |inodes[list].blocks| == INODE_BLOCKS
      modifies inodes, `nextInode
      ensures nextInode == ts + Tails(i + 1) && cur == ChainInode(id, ts, Tails(i + 1))
      ensures inodes[..] == Entered(old(inodes[..]), id, ts, i, start)
    {
      TailsNext(i);
      cur := list;
      if i % INODE_BLOCKS == 0 && i != 0 {
        inodes[cur] := inodes[cur].(tail := nextInode);
        cur := nextInode;
        inodes[cur] := ZERO_INODE;
        nextInode := nextInode + 1;
      }
      inodes[cur] := inodes[cur].(blocks := inodes[cur].blocks[i % INODE_BLOCKS := start + i]);
    }

    /** Enters `k` blocks from `start` on into inode `id`, in tail inodes of five. */
    method FillInodeBlocks(id: nat, k: nat, start: nat)
      requires Valid() && id < nextInode && nextInode + Tails(k) <= inodes.Length && start + k <= nextBlock
      requires inodes[id].tail == 0 && |inodes[id].blocks| == INODE_BLOCKS
      modifies inodes, `nextInode
      ensures Valid() && nextInode == old(nextInode) + Tails(k)
      ensures Chain(inodes[..], id, old(nextInode), k, start)
      ensures SameHeader(inodes[id], old(inodes[id])) && (k == 0 ==> inodes[id] == old(inodes[id]))
      ensures forall i :: 0 <= i < old(nextInode) && i != id ==> inodes[i] == old(inodes[i])
    {
      hide Chain, Entered, Tails, Stored, ChainInode, Filling, SameHeader;
      ghost var was, ts := inodes[..], nextInode;
      assert forall j :: 0 <= j < inodes.Length ==> was[j] == inodes[j];
      var list := id;
      var i := 0;
      FillingStart(was, id, ts, start);
      while i < k
        invariant i <= k && nextInode == ts + Tails(i) && list == ChainInode(id, ts, Tails(i))
        invariant Filling(was, inodes[..], id, ts, i, start)
      {
        FillingList(was, inodes[..], id, ts, i, start);
        TailsMonotone(i + 1, k);
        FillingNext(was, inodes[..], id, ts, i, start);
        list := EnterBlock(list, i, start, id, ts);
        i := i + 1;
      }
      FillingDone(was, inodes[..], id, ts, k, start);
      assert forall j :: 0 <= j < inodes.Length ==> inodes[j] == inodes[..][j] && was[j] == old(inodes[j]);
    }

    /** Copies a file's bytes into blocks from `start` on, a block at a time. */
    method CopyData(data: seq<Byte>, start: nat)
      requires start + (|data| + BLOCK_SIZE - 1) / BLOCK_SIZE <= blocks.Length
      requires forall b :: 0 <= b < blocks.Length ==> |blocks[b]| == BLOCK_SIZE
      modifies blocks
      ensures Holds(blocks[..], start, data)
      ensures forall b :: 0 <= b < blocks.Length ==> |blocks[b]| == BLOCK_SIZE
      ensures forall b :: 0 <= b < start || start + (|data| + BLOCK_SIZE - 1) / BLOCK_SIZE <= b < blocks.Length ==>
                blocks[b] == old(blocks[b])
    {
      hide Holds;
      var pos, j := 0, 0;
      HoldsNothing(blocks[..], start);
      assert data[..0] == [];
      while pos < |data|
        invariant pos == if j * BLOCK_SIZE < |data| then j * BLOCK_SIZE else |data|
        invariant j <= (|data| + BLOCK_SIZE - 1) / BLOCK_SIZE
        invariant forall b :: 0 <= b < blocks.Length ==> |blocks[b]| == BLOCK_SIZE
        invariant forall b :: 0 <= b < start || start + j <= b < blocks.Length ==> blocks[b] == old(blocks[b])
        invariant Holds(blocks[..], start, data[..pos])
      {
        var n := if |data| - pos < BLOCK_SIZE then |data| - pos else BLOCK_SIZE;
        HoldsNext(blocks[..], start, data, j, n);
        blocks[start + j] := data[pos..pos + n] + blocks[start + j][n..];
        pos := pos + n;
        j := j + 1;
      }
      assert data[..pos] == data;
    }

    /** Packs a regular file. */
    method VisitFile(data: seq<Byte>) returns (id: nat)
      requires Valid() && Packable(File(data))
      requires nextInode + InodesOf(File(data)) <= inodes.Length && nextBlock + BlocksOf(File(data)) <= blocks.Length
      modifies this, inodes, blocks
      ensures Packed(old(inodes[..]), old(blocks[..]), old(nextInode), old(nextBlock), File(data), id)
    {
      hide Encodes, Packable, Chain, Holds, Stored, Tails, BlocksFor, InodesOf, BlocksOf;
      ghost var t := File(data);
      PackableFile(t);
      FileSizes(t);
      id := nextInode;
      nextInode := nextInode + 1;
      var k, start := BlocksFor(|data|), nextBlock;
      nextBlock := nextBlock + k;
      FillInodeSize(id, REG, |data|);
      CopyData(data, start);
      FillInodeBlocks(id, k, start);
      FilePacked(inodes[..], blocks[..], id, start, t);
    }

    /** A tree has been packed at the counters as they were, and everything below
        them is untouched. */
    ghost predicate Packed(ins: seq<Inode>, bls: seq<Block>, inode: nat, block: nat, t: Node, id: nat)
      reads this, inodes, blocks
    {
      && Valid() && |ins| == inodes.Length && |bls| == blocks.Length
      && id == inode && nextInode == inode + InodesOf(t) && nextBlock == block + BlocksOf(t)
      && Encodes(inodes[..], blocks[..], id, block, t)
      && Agree(ins, inodes[..], 0, inode) && Agree(bls, blocks[..], 0, block)
    }
  
    method ClearBlocks(start: nat, n: nat)
      requires Valid() && start + n <= blocks.Length
      modifies blocks
      ensures Valid() && Agree(old(blocks[..]), blocks[..], 0, start)
      ensures forall i :: start <= i < start + n ==> blocks[i] == Zeros(BLOCK_SIZE)
    {
      for b := start to start + n
        invariant forall i :: start <= i < b || nextBlock <= i < blocks.Length ==> blocks[i] == Zeros(BLOCK_SIZE)
        invariant forall i :: 0 <= i < blocks.Length ==> |blocks[i]| == BLOCK_SIZE
        invariant forall i :: 0 <= i < start ==> blocks[i] == old(blocks[i])
      {
        blocks[b] := Zeros(BLOCK_SIZE);
      }
    }

    /** A directory with inode `id` and blocks from `start` on has its first `i`
        children packed; its own inode is still zero. */
    ghost predicate Progress(ins: seq<Inode>, bls: seq<Block>, id: nat, start: nat, es: seq<Named>, i: nat)
      requires i <= |es|
      reads this, inodes, blocks
    {
      && Valid() && |ins| == inodes.Length && |bls| == blocks.Length
      && nextInode == ChildId(id, es, i) && nextBlock == ChildBlock(start, es, i)
      && id < inodes.Length && inodes[id] == ZERO_INODE
      && Prefix(inodes[..], blocks[..], id, start, es, i)
      && Unused(blocks[..], start, i, BlocksFor(ENTRY_SIZE * |es|))
      && Agree(ins, inodes[..], 0, id) && Agree(bls, blocks[..], 0, start)
    }

    method WriteEntry(start: nat, i: nat, name: seq<Byte>, child: nat)
      requires start + i / PER_BLOCK < blocks.Length && |blocks[start + i / PER_BLOCK]| == BLOCK_SIZE
      requires |name| <= NAME_LEN && child < 0x10000
      modifies blocks
      ensures |EntryBytes(name, child)| == ENTRY_SIZE
      ensures
        var b := start + i / PER_BLOCK;
        blocks[..] == old(blocks[..])[b := WithEntry(old(blocks[..])[b], i, EntryBytes(name, child))]
    {
      var b := start + i / PER_BLOCK;
      blocks[b] := WithEntry(blocks[b], i, EntryBytes(name, child));
    }

    /** Packs child `i` of a directory and enters it. */
    method VisitChild(t: Node, i: nat, id: nat, start: nat, ghost ins: seq<Inode>, ghost bls: seq<Block>)
      requires t.Dir? && i < |t.entries| && Packable(t) && Progress(ins, bls, id, start, t.entries, i)
      requires id + InodesOf(t) <= inodes.Length && start + BlocksOf(t) <= blocks.Length
      modifies this, inodes, blocks
      ensures Progress(ins, bls, id, start, t.entries, i + 1)
      decreases t, 0
    {
      hide Encodes, Packable, EntryBytes, WithEntry, SumInodes, SumBlocks, Prefix, Unused, BlocksFor;
      var es := t.entries;
      ghost var ins0, bls0 := inodes[..], blocks[..];
      PackableChild(es, i);
      ChildInside(id, start, es, i);
      var child;
      match es[i].node {
        case File(data) => child := VisitFile(data);
        case Dir(_) => child := VisitDir(es[i].node);
      }
      PrefixKept(ins0, bls0, inodes[..], blocks[..], id, start, es, i);
      ChildBlockPast(start, es, i);
      UnusedKept(bls0, blocks[..], start, i, BlocksFor(ENTRY_SIZE * |es|));
      ghost var bls1 := blocks[..];
      EntryPlace(es, i);
      WriteEntry(start, i, es[i].name, child);
      PrefixNext(inodes[..], bls1, id, start, es, i);
      UnusedNext(bls1, start, i, BlocksFor(ENTRY_SIZE * |es|), EntryBytes(es[i].name, child));
    }

    /** Fills in a directory's own inode once all its children are packed. */
    method FinishDir(id: nat, start: nat, t: Node, ghost ins: seq<Inode>, ghost bls: seq<Block>)
      requires t.Dir? && Packable(t) && Progress(ins, bls, id, start, t.entries, |t.entries|)
      requires id + InodesOf(t) <= inodes.Length && start + BlocksOf(t) <= blocks.Length
      modifies this, inodes
      ensures Packed(ins, bls, id, start, t, id)
    {
      hide Encodes, Packable, SumInodes, SumBlocks, Prefix, Unused, Chain, BlocksFor, DivCeil, Tails;
      var es := t.entries;
      PackableSize(es);
      DirSizes(es);
      ghost var ins0 := inodes[..];
      FillInodeSize(id, DIR, ENTRY_SIZE * |es|);
      FillInodeBlocks(id, BlocksFor(ENTRY_SIZE * |es|), start);
      NoBlocks(es);
      DirPacked(ins0, inodes[..], blocks[..], id, start, es);
    }

    /** Packs a directory: its inode number and blocks first, then its children,
        then its own inode with the tails. */
    method VisitDir(t: Node) returns (id: nat)
      requires Valid() && t.Dir? && Packable(t)
      requires nextInode + InodesOf(t) <= inodes.Length && nextBlock + BlocksOf(t) <= blocks.Length
      modifies this, inodes, blocks
      ensures Packed(old(inodes[..]), old(blocks[..]), old(nextInode), old(nextBlock), t, id)
      decreases t, 1
    {
      hide Encodes, Packable, SumInodes, SumBlocks, Prefix, Unused, Chain, BlocksFor, DivCeil, Tails;
      var es := t.entries;
      var size, start := ENTRY_SIZE * |es|, nextBlock;
      PackableSize(es);
      DirSizes(es);
      id := nextInode;
      nextInode := nextInode + 1;
      nextBlock := nextBlock + BlocksFor(size);
      ClearBlocks(start, BLOCK_SIZE * DivCeil(size, BLOCK_SIZE) % WORD / BLOCK_SIZE);
      PrefixStart(inodes[..], blocks[..], id, start, es);
      UnusedStart(blocks[..], start, BlocksFor(size));
      var i := 0;
      while i < |es|
        invariant i <= |es| && Progress(old(inodes[..]), old(blocks[..]), id, start, es, i)
      {
        VisitChild(t, i, id, start, old(inodes[..]), old(blocks[..]));
        i := i + 1;
      }
      FinishDir(id, start, t, old(inodes[..]), old(blocks[..]));
    }
  }
}
