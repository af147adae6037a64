/** The two readers of an AEFS image: the tree walk of the listing tool and the
    file read of the kernel. */
module AefsReaders {
  import opened Wrappers
  import opened AefsSpec

  /** What the listing tool shows of an inode. */
  datatype Listing = RegFile(size: nat) | Directory(size: nat, entries: seq<Item>)
  datatype Item = Item(name: seq<Byte>, listing: Listing)

  /** The listing a tree should give. */
  ghost function Outline(t: Node): Listing
    decreases t, 1
  {
    match t
    case File(data) => RegFile(|data|)
    case Dir(es) => Directory(ENTRY_SIZE * |es|, Items(es))
  }

  ghost function Items(es: seq<Named>): (r: seq<Item>)
    ensures |r| == |es|
    decreases es, 0
  {
    if es == [] then [] else Items(es[..|es| - 1]) + [Item(es[|es| - 1].name, Outline(es[|es| - 1].node))]
  }

  lemma ItemsNext(es: seq<Named>, i: nat)
    requires i < |es|
    ensures Items(es[..i + 1]) == Items(es[..i]) + [Item(es[i].name, Outline(es[i].node))]
  {
    assert es[..i + 1][..i] == es[..i];
  }

  lemma {:induction false} ItemsAt(es: seq<Named>, i: nat)
    requires i < |es|
    ensures Items(es)[i] == Item(es[i].name, Outline(es[i].node))
  {
    var n := |es| - 1;
    if i < n {
      ItemsAt(es[..n], i);
    }
  }

  // ----- directory entries read back

  /** The bytes of a C string in a name field. */
  function CString(bytes: seq<Byte>): (s: seq<Byte>)
    ensures s <= bytes && forall i :: 0 <= i < |s| ==> s[i] != 0
  {
    if bytes == [] || bytes[0] == 0 then [] else [bytes[0]] + CString(bytes[1..])
  }

  function EntryId(entry: seq<Byte>): nat
    requires |entry| == ENTRY_SIZE
  {
    entry[NAME_LEN] as nat + 256 * entry[NAME_LEN + 1] as nat
  }

  lemma {:induction false} CStringOf(name: seq<Byte>, rest: seq<Byte>)
    requires forall i :: 0 <= i < |name| ==> name[i] != 0
    requires rest != [] && rest[0] == 0
    ensures CString(name + rest) == name
  {
    if name == [] {
      assert name + rest == rest;
    } else {
      assert (name + rest)[1..] == name[1..] + rest;
      CStringOf(name[1..], rest);
    }
  }

  /** An entry byte by byte: the name in the first 254, padded with zeros, and the inode
      number in the last two, low byte first. */
  lemma EntryRecord(name: seq<Byte>, id: nat)
    requires |name| <= 254 && id < 0x10000
    ensures
      var r := EntryBytes(name, id);
      && |r| == 256 && r[..|name|] == name && (forall c :: |name| <= c < 254 ==> r[c] == 0)
      && r[254] as nat + 0x100 * r[255] as nat == id
  {
  }

  /** A directory entry gives back the name and the inode number it was written with. */
  lemma EntryDecodes(name: seq<Byte>, id: nat)
    requires GoodName(name) && id < 0x10000
    ensures |EntryBytes(name, id)| == ENTRY_SIZE
    ensures CString(EntryBytes(name, id)) == name && EntryId(EntryBytes(name, id)) == id
  {
    var rest := Zeros(NAME_LEN - |name|) + [(id % 256) as Byte, (id / 256) as Byte];
    assert EntryBytes(name, id) == name + rest;
    CStringOf(name, rest);
  }

  // ----- walking the chain

  /** What following `tail` from the `q`-th inode of a chain gives. */
  lemma ChainTail(ins: seq<Inode>, id: nat, ts: nat, k: nat, start: nat, q: nat)
    requires Chain(ins, id, ts, k, start) && q <= Tails(k)
    ensures ChainInode(id, ts, q) < |ins|
    ensures ins[ChainInode(id, ts, q)].tail == if q < Tails(k) then ChainInode(id, ts, q + 1) else 0
  {
  }

  lemma ChainBlock(ins: seq<Inode>, id: nat, ts: nat, k: nat, start: nat, j: nat)
    requires Chain(ins, id, ts, k, start) && j < k
    ensures j / INODE_BLOCKS <= Tails(k) && ChainInode(id, ts, j / INODE_BLOCKS) < |ins|
    ensures
      var inode := ins[ChainInode(id, ts, j / INODE_BLOCKS)];
      |inode.blocks| == INODE_BLOCKS && inode.blocks[j % INODE_BLOCKS] == start + j
  {
  }

  /** What is printed of an inode: its blocks and its tail. */
  datatype Printed = Printed(blocks: seq<nat>, tail: nat)

  /** Line `c` shows the inode `q + c` of the chain: its blocks that are in use, and
      the number of the next one, or 0. */
  ghost predicate PrintedFrom(out: seq<Printed>, ts: nat, k: nat, start: nat, q: nat) {
    && q <= Tails(k) && |out| == Tails(k) - q + 1
    && (forall c :: 0 <= c < |out| ==> out[c].tail == if q + c < Tails(k) then ts + q + c else 0)
    && (forall j :: 0 <= j < k && j / INODE_BLOCKS >= q ==>
          && j / INODE_BLOCKS - q < |out|
          && |out[j / INODE_BLOCKS - q].blocks| == INODE_BLOCKS
          && out[j / INODE_BLOCKS - q].blocks[j % INODE_BLOCKS] == start + j)
  }

  /** Prints the blocks and the tail of an inode, and then those of its tail: the whole
      rest of the chain, block by block. */
  method PrintInodeTail(ins: seq<Inode>, inode: nat, ghost id: nat, ghost ts: nat, ghost k: nat, ghost start: nat,
                        ghost q: nat) returns (out: seq<Printed>)
    requires Chain(ins, id, ts, k, start) && q <= Tails(k) && inode == ChainInode(id, ts, q) && id < ts
    ensures PrintedFrom(out, ts, k, start, q)
    decreases |ins| - inode
  {
    ChainTail(ins, id, ts, k, start, q);
    out := [Printed(ins[inode].blocks, ins[inode].tail)];
    if ins[inode].tail != 0 {
      ChainTail(ins, id, ts, k, start, q + 1);
      var rest := PrintInodeTail(ins, ins[inode].tail, id, ts, k, start, q + 1);
      PrintedNext(ins, out[0], rest, id, ts, k, start, q);
      out := out + rest;
    } else {
      PrintedLast(ins, out[0], id, ts, k, start, q);
    }
  }

  lemma PrintedNext(ins: seq<Inode>, p: Printed, rest: seq<Printed>, id: nat, ts: nat, k: nat, start: nat, q: nat)
    requires Chain(ins, id, ts, k, start) && q < Tails(k) && ChainInode(id, ts, q) < |ins|
    requires PrintedFrom(rest, ts, k, start, q + 1)
    requires p == Printed(ins[ChainInode(id, ts, q)].blocks, ts + q)
    ensures PrintedFrom([p] + rest, ts, k, start, q)
  {
    hide Chain;
    var out := [p] + rest;
    forall c | 0 <= c < |out| ensures out[c].tail == if q + c < Tails(k) then ts + q + c else 0 {
      assert c > 0 ==> out[c] == rest[c - 1];
    }
    forall j | 0 <= j < k && j / INODE_BLOCKS >= q
      ensures
        && j / INODE_BLOCKS - q < |out| && |out[j / INODE_BLOCKS - q].blocks| == INODE_BLOCKS
        && out[j / INODE_BLOCKS - q].blocks[j % INODE_BLOCKS] == start + j
    {
      ChainBlock(ins, id, ts, k, start, j);
      assert j / INODE_BLOCKS > q ==> out[j / INODE_BLOCKS - q] == rest[j / INODE_BLOCKS - (q + 1)];
    }
  }

  lemma PrintedLast(ins: seq<Inode>, p: Printed, id: nat, ts: nat, k: nat, start: nat, q: nat)
    requires Chain(ins, id, ts, k, start) && q == Tails(k) && ChainInode(id, ts, q) < |ins|
    requires p == Printed(ins[ChainInode(id, ts, q)].blocks, 0)
    ensures PrintedFrom([p], ts, k, start, q)
  {
    hide Chain;
    forall j | 0 <= j < k && j / INODE_BLOCKS >= q
      ensures j / INODE_BLOCKS == q && |p.blocks| == INODE_BLOCKS && p.blocks[j % INODE_BLOCKS] == start + j
    {
      ChainBlock(ins, id, ts, k, start, j);
    }
  }

  // ----- the listing tool

  /** Walks an inode of a packed image and rebuilds the tree it was packed from; it
      comes to an end because inode numbers grow on the way down. */
  method VisitInode(ins: seq<Inode>, bls: seq<Block>, id: nat, ghost start: nat, ghost t: Node) returns (out: Listing)
    requires Encodes(ins, bls, id, start, t) && Packable(t)
    ensures out == Outline(t)
    decreases |ins| - id, 1
  {
    EncodesBounds(ins, bls, id, start, t);
    if ins[id].kind == REG {
      out := RegFile(ins[id].Size());
    } else {
      out := VisitDir(ins, bls, id, start, t);
    }
  }

  /** The reader holds block number `j - 1` and will look for block `j` in `cur`. */
  ghost predicate Reading(bls: seq<Block>, id: nat, ts: nat, k: nat, start: nat,
                          j: nat, cur: nat, num: nat, block: Block) {
    && num == j % INODE_BLOCKS
    && (j / INODE_BLOCKS <= Tails(k) ==> cur == ChainInode(id, ts, j / INODE_BLOCKS))
    && (j > 0 ==> start + j - 1 < |bls| && block == bls[start + j - 1])
  }

  /** Fetches the next block of the chain, moving on to the tail after every fifth. */
  method NextBlock(ins: seq<Inode>, bls: seq<Block>, cur: nat, num: nat, ghost block: Block,
                   ghost id: nat, ghost ts: nat, ghost k: nat, ghost start: nat, ghost j: nat)
    returns (cur': nat, num': nat, block': Block)
    requires Chain(ins, id, ts, k, start) && j < k && start + k <= |bls|
    requires Reading(bls, id, ts, k, start, j, cur, num, block)
    ensures Reading(bls, id, ts, k, start, j + 1, cur', num', block') && block' == bls[start + j]
  {
    hide Chain;
    ChainBlock(ins, id, ts, k, start, j);
    ChainTail(ins, id, ts, k, start, j / INODE_BLOCKS);
    block' := bls[ins[cur].blocks[num]];
    cur', num' := cur, num + 1;
    if num' == INODE_BLOCKS {
      num' := 0;
      cur' := ins[cur].tail;
    }
  }

  method VisitDir(ins: seq<Inode>, bls: seq<Block>, id: nat, ghost start: nat, ghost t: Node) returns (out: Listing)
    requires Encodes(ins, bls, id, start, t) && Packable(t) && id < |ins| && ins[id].kind == DIR
    ensures out == Outline(t)
    decreases |ins| - id, 0
  {
    hide Chain, Encodes, EntryAt, EntryBytes, CString, EntryId, Outline, Items, BlocksFor, Packable;
    DirFacts(ins, bls, id, start, t);
    ghost var es := t.entries;
    ghost var k, ts := BlocksFor(ENTRY_SIZE * |es|), ChildId(id, es, |es|);
    var n := ins[id].Size() / ENTRY_SIZE;
    var items, block: Block, cur, num := [], [], id, 0;
    ghost var j: nat := 0;
    var i := 0;
    while i < n
      invariant i <= n && j == (i + PER_BLOCK - 1) / PER_BLOCK
      invariant Reading(bls, id, ts, k, start, j, cur, num, block)
      invariant items == Items(es[..i])
    {
      EntryFacts(ins, bls, id, start, t, i);
      if i % PER_BLOCK == 0 {
        cur, num, block := NextBlock(ins, bls, cur, num, block, id, ts, k, start, j);
        j := j + 1;
      }
      assert block == bls[start + i / PER_BLOCK];
      var entry := block[i % PER_BLOCK * ENTRY_SIZE..i % PER_BLOCK * ENTRY_SIZE + ENTRY_SIZE];
      ItemsNext(es, i);
      var child := VisitInode(ins, bls, EntryId(entry), ChildBlock(start, es, i), es[i].node);
      items := items + [Item(CString(entry), child)];
      i := i + 1;
    }
    assert es[..i] == es;
    out := Directory(ins[id].Size(), items);
  }

  lemma DirFacts(ins: seq<Inode>, bls: seq<Block>, id: nat, start: nat, t: Node)
    requires Encodes(ins, bls, id, start, t) && id < |ins| && ins[id].kind == DIR
    ensures t.Dir? && ins[id].Size() == ENTRY_SIZE * |t.entries|
    ensures Items(t.entries[..0]) == [] && Outline(t) == Directory(ENTRY_SIZE * |t.entries|, Items(t.entries))
    ensures start + BlocksFor(ENTRY_SIZE * |t.entries|) <= |bls|
    ensures Chain(ins, id, ChildId(id, t.entries, |t.entries|), BlocksFor(ENTRY_SIZE * |t.entries|), start)
  {
  }

  lemma EntryFacts(ins: seq<Inode>, bls: seq<Block>, id: nat, start: nat, t: Node, i: nat)
    requires Encodes(ins, bls, id, start, t) && Packable(t) && t.Dir? && i < |t.entries|
    ensures i / PER_BLOCK < BlocksFor(ENTRY_SIZE * |t.entries|)
    ensures start + i / PER_BLOCK < |bls| && |bls[start + i / PER_BLOCK]| == BLOCK_SIZE
    ensures
      var at := i % PER_BLOCK * ENTRY_SIZE;
      var entry := bls[start + i / PER_BLOCK][at..at + ENTRY_SIZE];
      && CString(entry) == t.entries[i].name
      && EntryId(entry) == ChildId(id, t.entries, i)
      && id < EntryId(entry) < |ins|
    ensures Encodes(ins, bls, ChildId(id, t.entries, i), ChildBlock(start, t.entries, i), t.entries[i].node)
    ensures Packable(t.entries[i].node)
  {
    var es := t.entries;
    EntryPlace(es, i);
    PackableChild(es, i);
    ChildInside(id, start, es, i);
    assert EntryAt(bls, start, i, es[i].name, ChildId(id, es, i));
    EntryDecodes(es[i].name, ChildId(id, es, i));
    EncodesBounds(ins, bls, ChildId(id, es, i), ChildBlock(start, es, i), es[i].node);
  }

  // ----- the kernel's file read

  /** After `i` blocks the reader stands on the last inode it needed, or on inode 0
      when it has run past the chain. */
  ghost predicate Following(id: nat, ts: nat, k: nat, i: nat, cur: nat) {
    cur == if Tails(i) <= Tails(k) then ChainInode(id, ts, Tails(i)) else 0
  }

  lemma FollowNext(ins: seq<Inode>, id: nat, ts: nat, k: nat, start: nat, i: nat, cur: nat)
    requires Chain(ins, id, ts, k, start) && Following(id, ts, k, i, cur)
    requires ins[0] == ZERO_INODE
    ensures cur < |ins|
    ensures Following(id, ts, k, i + 1, if i % INODE_BLOCKS == 0 && i != 0 then ins[cur].tail else cur)
  {
    TailsNext(i);
    if Tails(i) <= Tails(k) {
      ChainTail(ins, id, ts, k, start, Tails(i));
    }
  }

  lemma HeldChunk(bls: seq<Block>, start: nat, data: seq<Byte>, i: nat, n: nat)
    requires Holds(bls, start, data) && n <= BLOCK_SIZE && i * BLOCK_SIZE + n <= |data| && n > 0
    ensures start + i < |bls| && n <= |bls[start + i]|
    ensures bls[start + i][..n] == data[i * BLOCK_SIZE..i * BLOCK_SIZE + n]
  {
    var at := i * BLOCK_SIZE;
    assert (at + n - 1) / BLOCK_SIZE == i && (at + n - 1) % BLOCK_SIZE == n - 1;
    var blk := bls[start + i];
    forall c | 0 <= c < n ensures blk[c] == data[at + c] {
      assert (at + c) / BLOCK_SIZE == i && (at + c) % BLOCK_SIZE == c;
    }
  }

  /** What the loop has copied after `i` blocks of a `total`-byte read. */
  ghost predicate Copied(data: seq<Byte>, total: nat, i: nat, buf: seq<Byte>, size: nat) {
    && total <= |data|
    && size == (if i * BLOCK_SIZE < total then total - i * BLOCK_SIZE else 0)
    && buf == data[..total - size]
  }

  /** One block of the read loop. */
  method ReadBlock(ins: seq<Inode>, bls: seq<Block>, cur: nat, i: nat, buf: seq<Byte>, size: nat,
                   ghost id: nat, ghost data: seq<Byte>, ghost start: nat, ghost total: nat)
    returns (buf': seq<Byte>, size': nat)
    requires Chain(ins, id, id + 1, BlocksFor(|data|), start) && Holds(bls, start, data) && |data| < 0x100_0000
    requires Following(id, id + 1, BlocksFor(|data|), i + 1, cur) && cur < |ins| && Copied(data, total, i, buf, size)
    ensures Copied(data, total, i + 1, buf', size')
  {
    hide Chain, Holds;
    var n := if size < BLOCK_SIZE then size else BLOCK_SIZE;
    if n > 0 {
      BlocksForIs(|data|);
      assert i < BlocksFor(|data|);
      ChainBlock(ins, id, id + 1, BlocksFor(|data|), start, i);
      TailsNext(i);
      HeldChunk(bls, start, data, i, n);
      buf' := buf + bls[ins[cur].blocks[i % INODE_BLOCKS]][..n];
    } else {
      buf' := buf;
    }
    size' := size - n;
  }

  lemma CopiedStart(data: seq<Byte>, total: nat, id: nat, ts: nat, k: nat)
    requires total <= |data|
    ensures Copied(data, total, 0, [], total) && Following(id, ts, k, 0, id)
  {
  }

  lemma CopiedEnd(data: seq<Byte>, total: nat, i: nat, buf: seq<Byte>, size: nat)
    requires Copied(data, total, i, buf, size) && i * BLOCK_SIZE >= total
    ensures buf == data[..total]
  {
  }

  /** The read loop, over `blocks` blocks of a file's chain. */
  method ReadBlocks(ins: seq<Inode>, bls: seq<Block>, id: nat, total: nat, blocks: nat,
                    ghost data: seq<Byte>, ghost start: nat) returns (buf: seq<Byte>)
    requires Chain(ins, id, id + 1, BlocksFor(|data|), start) && Holds(bls, start, data) && |data| < 0x100_0000
    requires ins[0] == ZERO_INODE && total <= |data| && blocks * BLOCK_SIZE >= total
    ensures buf == data[..total]
  {
    hide Chain, Holds, BlocksFor, Following, Copied, Tails;
    ghost var k := BlocksFor(|data|);
    CopiedStart(data, total, id, id + 1, k);
    var cur, size, i := id, total, 0;
    buf := [];
    while i < blocks
      invariant i <= blocks && Following(id, id + 1, k, i, cur) && Copied(data, total, i, buf, size)
    {
      FollowNext(ins, id, id + 1, k, start, i, cur);
      if i % INODE_BLOCKS == 0 && i != 0 {
        cur := ins[cur].tail;
      }
      FollowBound(ins, id, id + 1, k, start, i + 1, cur);
      buf, size := ReadBlock(ins, bls, cur, i, buf, size, id, data, start, total);
      i := i + 1;
    }
    CopiedEnd(data, total, i, buf, size);
  }

  /** Reads up to `count` bytes from the start of a packed file: exactly the first
      bytes of its contents; a directory is refused. A read of nothing wraps the
      block count and walks off the chain, copying nothing. */
  method Read(ins: seq<Inode>, bls: seq<Block>, id: nat, count: nat, ghost start: nat, ghost t: Node)
    returns (r: Option<seq<Byte>>)
    requires Encodes(ins, bls, id, start, t) && Packable(t) && 0 < id < |ins| && ins[0] == ZERO_INODE
    requires count < WORD
    ensures t.File? ==> r == Some(if count < |t.data| then t.data[..count] else t.data)
    ensures t.Dir? ==> r == None
  {
    if ins[id].kind != REG {
      return None;
    }
    FileFacts(ins, bls, id, start, t);
    var size: nat := if count < ins[id].Size() then count else ins[id].Size();
    WholeRead(size);
    var buf := ReadBlocks(ins, bls, id, size, DivCeil(size, BLOCK_SIZE), t.data, start);
    assert t.data[..|t.data|] == t.data;
    return Some(buf);
  }

  lemma FileFacts(ins: seq<Inode>, bls: seq<Block>, id: nat, start: nat, t: Node)
    requires Encodes(ins, bls, id, start, t) && Packable(t) && id < |ins| && ins[id].kind == REG
    ensures t.File? && ins[id].Size() == |t.data| < 0x100_0000
    ensures Chain(ins, id, id + 1, BlocksFor(|t.data|), start) && Holds(bls, start, t.data)
  {
  }

  lemma FollowBound(ins: seq<Inode>, id: nat, ts: nat, k: nat, start: nat, i: nat, cur: nat)
    requires Chain(ins, id, ts, k, start) && Following(id, ts, k, i, cur)
    ensures cur < |ins|
  {
    if Tails(i) <= Tails(k) {
      ChainTail(ins, id, ts, k, start, Tails(i));
    }
  }

  lemma WholeRead(total: nat)
    requires total < 0x100_0000
    ensures DivCeil(total, BLOCK_SIZE) * BLOCK_SIZE >= total
  {
  }
}
