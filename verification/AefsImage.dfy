/** The image as one file of bytes: superblock, inode records of 16 bytes, and data
    blocks, where the layout arithmetic of the packer puts them. */
module AefsImage {
  import opened Wrappers
  import opened AefsSpec
  import opened AefsReaders
  import opened AefsLayout
  import opened AefsLookup
  import opened Vfs
  import Mkfs

  const MEGABYTE: nat := 0x10_0000

  // ----- records

  function Lo(n: nat): Byte { (n % 256) as Byte }
  function Hi(n: nat): Byte { (n / 256 % 256) as Byte }
  function Number(lo: Byte, hi: Byte): nat { lo as nat + 256 * hi as nat }

  lemma NumberBack(n: nat)
    requires n < 0x10000
    ensures Number(Lo(n), Hi(n)) == n
  {
  }

  function InodeBytes(inode: Inode): (r: seq<Byte>)
    requires Stored(inode)
    ensures |r| == INODE_SIZE
  {
    var b := inode.blocks;
    [Lo(inode.kind), Lo(inode.sizeHigh), Lo(inode.sizeLow), Hi(inode.sizeLow),
     Lo(b[0]), Hi(b[0]), Lo(b[1]), Hi(b[1]), Lo(b[2]), Hi(b[2]), Lo(b[3]), Hi(b[3]), Lo(b[4]), Hi(b[4]),
     Lo(inode.tail), Hi(inode.tail)]
  }

  /** The record byte by byte: type, high byte of the size, and then 16-bit numbers, low
      byte first. */
  lemma InodeRecord(inode: Inode)
    requires Stored(inode)
    ensures
      var r := InodeBytes(inode);
      && |r| == 16 && r[0] as nat == inode.kind && r[1] as nat == inode.sizeHigh
      && r[2] as nat + 0x100 * r[3] as nat == inode.sizeLow
      && r[4] as nat + 0x100 * r[5] as nat == inode.blocks[0]
      && r[6] as nat + 0x100 * r[7] as nat == inode.blocks[1]
      && r[8] as nat + 0x100 * r[9] as nat == inode.blocks[2]
      && r[10] as nat + 0x100 * r[11] as nat == inode.blocks[3]
      && r[12] as nat + 0x100 * r[13] as nat == inode.blocks[4]
      && r[14] as nat + 0x100 * r[15] as nat == inode.tail
  {
    var b := inode.blocks;
    SmallBack(inode.kind);
    SmallBack(inode.sizeHigh);
    WordBack(inode.sizeLow);
    WordBack(b[0]);
    WordBack(b[1]);
    WordBack(b[2]);
    WordBack(b[3]);
    WordBack(b[4]);
    WordBack(inode.tail);
    hide Lo, Hi;
  }

  lemma WordBack(n: nat)
    requires n < 0x10000
    ensures Lo(n) as nat + 0x100 * Hi(n) as nat == n
  {
  }

  function InodeFrom(r: seq<Byte>): Inode
    requires |r| == INODE_SIZE
  {
    Inode(r[0] as nat, r[1] as nat, Number(r[2], r[3]),
          [Number(r[4], r[5]), Number(r[6], r[7]), Number(r[8], r[9]), Number(r[10], r[11]), Number(r[12], r[13])],
          Number(r[14], r[15]))
  }

  /** An inode record gives back the inode it was written for. */
  lemma InodeRoundTrip(inode: Inode)
    requires Stored(inode)
    ensures InodeFrom(InodeBytes(inode)) == inode
  {
    var b := inode.blocks;
    hide Number, Lo, Hi;
    NumberBack(inode.sizeLow);
    NumberBack(inode.tail);
    NumberBack(b[0]);
    NumberBack(b[1]);
    NumberBack(b[2]);
    NumberBack(b[3]);
    NumberBack(b[4]);
    SmallBack(inode.kind);
    SmallBack(inode.sizeHigh);
    assert b == [b[0], b[1], b[2], b[3], b[4]];
  }

  lemma SmallBack(n: nat)
    requires n < 256
    ensures Lo(n) as nat == n
  {
  }

  /** Magic number, inode count and start block. */
  function SuperBytes(megabytes: nat): (r: seq<Byte>)
    ensures |r| == 8
  {
    [0x34, 0xAE, 0x12, 0xAE, Lo(NumInodes(megabytes)), Hi(NumInodes(megabytes)),
     Lo(StartBlock(megabytes)), Hi(StartBlock(megabytes))]
  }

  // ----- the file

  /** Inodes and blocks that fill the two areas of an image of this size. */
  ghost predicate Fills(megabytes: nat, ins: seq<Inode>, bls: seq<Block>) {
    && megabytes < 2048 && megabytes % 64 != 0
    && |ins| == |bls| == NumInodes(megabytes)
    && (forall i :: 0 <= i < |ins| ==> Stored(ins[i]))
    && (forall b :: 0 <= b < |bls| ==> |bls[b]| == BLOCK_SIZE)
  }

  function ByteAt(megabytes: nat, ins: seq<Inode>, bls: seq<Block>, a: nat): Byte
    requires Fills(megabytes, ins, bls)
  {
    var id, b := (a - BLOCK_SIZE) / INODE_SIZE, a / BLOCK_SIZE - StartBlock(megabytes);
    if a < 8 then SuperBytes(megabytes)[a]
    else if a < BLOCK_SIZE then 0
    else if id < |ins| then InodeBytes(ins[id])[(a - BLOCK_SIZE) % INODE_SIZE]
    else if 0 <= b < |bls| then bls[b][a % BLOCK_SIZE]
    else 0
  }

  function ImageOf(megabytes: nat, ins: seq<Inode>, bls: seq<Block>): (image: seq<Byte>)
    requires Fills(megabytes, ins, bls)
    ensures |image| == megabytes * MEGABYTE
  {
    seq(megabytes * MEGABYTE, a requires 0 <= a => ByteAt(megabytes, ins, bls, a))
  }

  /** The areas in numbers. */
  lemma Areas(megabytes: nat)
    requires megabytes < 2048 && megabytes % 64 != 0
    ensures
      var n, s := NumInodes(megabytes), StartBlock(megabytes);
      && 1 <= n < 0x10000 && s < 0x10000
      && InodeAddress(n) <= s * BLOCK_SIZE && (s + n) * BLOCK_SIZE <= megabytes * MEGABYTE
  {
    LayoutNumbers(megabytes);
    hide NumInodes, StartBlock;
    assert megabytes >= megabytes % 64;
  }

  lemma LayoutNumbers(megabytes: nat)
    requires megabytes < 2048 && megabytes % 64 != 0
    ensures NumInodes(megabytes) == megabytes % 64 * 1008 - 1 && StartBlock(megabytes) == megabytes % 64 * 16 + 1
    ensures forall id: nat :: InodeAddress(id) == 1024 + 16 * id
    ensures forall b: nat :: BlockAddress(megabytes, b) == 1024 * (megabytes % 64 * 16 + 1 + b)
  {
    var m := megabytes % 64;
    assert Blocks(megabytes) == m * 1024;
    assert DivCeil(m * 1024 * INODE_SIZE, BLOCK_SIZE) == m * 16;
  }

  // ----- reading

  /** The first four bytes, low byte first. */
  function MagicOf(image: seq<Byte>): nat
    requires |image| >= 8
  {
    image[0] as nat + 0x100 * image[1] as nat + 0x1_0000 * image[2] as nat + 0x100_0000 * image[3] as nat
  }

  /** The kernel mounts an image exactly if it starts with the magic number. */
  method Init(image: seq<Byte>) returns (ok: bool)
    requires |image| >= 8
    ensures ok <==> image[..4] == [0x34, 0xAE, 0x12, 0xAE]
  {
    MagicBytes(image);
    ok := MagicOf(image) == MAGIC;
  }

  const MAGIC: nat := 0xAE12_AE34

  lemma MagicBytes(image: seq<Byte>)
    requires |image| >= 8
    ensures MagicOf(image) == 0xAE12_AE34 <==> image[..4] == [0x34, 0xAE, 0x12, 0xAE]
  {
    if MagicOf(image) == 0xAE12_AE34 {
      assert MagicOf(image) % 0x100 == image[0] as nat;
      assert MagicOf(image) / 0x100 % 0x100 == image[1] as nat;
    }
  }

  function NumInodesOf(image: seq<Byte>): nat
    requires |image| >= 8
  {
    Number(image[4], image[5])
  }

  function StartOf(image: seq<Byte>): nat
    requires |image| >= 8
  {
    Number(image[6], image[7])
  }

  /** The image is long enough for what its superblock says. */
  predicate Readable(image: seq<Byte>) {
    && |image| >= 8
    && InodeAddress(NumInodesOf(image)) <= |image|
    && (StartOf(image) + NumInodesOf(image)) * BLOCK_SIZE <= |image|
  }

  function GetInode(image: seq<Byte>, id: nat): Inode
    requires Readable(image) && id < NumInodesOf(image)
  {
    InodeFrom(image[InodeAddress(id)..InodeAddress(id) + INODE_SIZE])
  }

  function GetBlock(image: seq<Byte>, b: nat): Block
    requires Readable(image) && b < NumInodesOf(image)
  {
    var at := (StartOf(image) + b) * BLOCK_SIZE;
    image[at..at + BLOCK_SIZE]
  }

  function InodesIn(image: seq<Byte>): (ins: seq<Inode>)
    requires Readable(image)
    ensures |ins| == NumInodesOf(image) && forall id :: 0 <= id < |ins| ==> ins[id] == GetInode(image, id)
  {
    seq(NumInodesOf(image), id requires 0 <= id < NumInodesOf(image) => GetInode(image, id))
  }

  function BlocksIn(image: seq<Byte>): (bls: seq<Block>)
    requires Readable(image)
    ensures |bls| == NumInodesOf(image) && forall b :: 0 <= b < |bls| ==> bls[b] == GetBlock(image, b)
  {
    seq(NumInodesOf(image), b requires 0 <= b < NumInodesOf(image) => GetBlock(image, b))
  }

  lemma ImageReadable(megabytes: nat, ins: seq<Inode>, bls: seq<Block>)
    requires Fills(megabytes, ins, bls)
    ensures
      var image := ImageOf(megabytes, ins, bls);
      && Readable(image) && image[..4] == [0x34, 0xAE, 0x12, 0xAE]
      && NumInodesOf(image) == NumInodes(megabytes) && StartOf(image) == StartBlock(megabytes)
      && image[4] as nat + 0x100 * image[5] as nat == NumInodes(megabytes)
      && image[6] as nat + 0x100 * image[7] as nat == StartBlock(megabytes)
  {
    Areas(megabytes);
    WordBack(NumInodes(megabytes));
    WordBack(StartBlock(megabytes));
    hide NumInodes, StartBlock, Number, Lo, Hi;
    NumberBack(NumInodes(megabytes));
    NumberBack(StartBlock(megabytes));
  }

  lemma InodeByte(megabytes: nat, ins: seq<Inode>, bls: seq<Block>, id: nat, c: nat)
    requires Fills(megabytes, ins, bls) && id < |ins| && c < INODE_SIZE
    ensures InodeAddress(id) + c < megabytes * MEGABYTE
    ensures ByteAt(megabytes, ins, bls, InodeAddress(id) + c) == InodeBytes(ins[id])[c]
  {
    Areas(megabytes);
    hide NumInodes, StartBlock, SuperBytes, InodeBytes;
    var a := InodeAddress(id) + c;
    assert (a - BLOCK_SIZE) / INODE_SIZE == id && (a - BLOCK_SIZE) % INODE_SIZE == c;
  }

  lemma BlockByte(megabytes: nat, ins: seq<Inode>, bls: seq<Block>, b: nat, c: nat)
    requires Fills(megabytes, ins, bls) && b < |bls| && c < BLOCK_SIZE
    ensures (StartBlock(megabytes) + b) * BLOCK_SIZE + c < megabytes * MEGABYTE
    ensures ByteAt(megabytes, ins, bls, (StartBlock(megabytes) + b) * BLOCK_SIZE + c) == bls[b][c]
  {
    Areas(megabytes);
    hide NumInodes, StartBlock, SuperBytes, InodeBytes;
    var a := (StartBlock(megabytes) + b) * BLOCK_SIZE + c;
    assert a / BLOCK_SIZE == StartBlock(megabytes) + b && a % BLOCK_SIZE == c;
    assert (a - BLOCK_SIZE) / INODE_SIZE >= |ins|;
  }

  lemma InodeRead(megabytes: nat, ins: seq<Inode>, bls: seq<Block>, id: nat)
    requires Fills(megabytes, ins, bls) && id < |ins|
    ensures
      var image, at := ImageOf(megabytes, ins, bls), InodeAddress(id);
      at + INODE_SIZE <= |image| && InodeFrom(image[at..at + INODE_SIZE]) == ins[id]
  {
    hide ByteAt, NumInodes, StartBlock, InodeFrom, InodeBytes;
    var image, at := ImageOf(megabytes, ins, bls), InodeAddress(id);
    InodeByte(megabytes, ins, bls, id, INODE_SIZE - 1);
    forall c | 0 <= c < INODE_SIZE ensures image[at + c] == InodeBytes(ins[id])[c] {
      InodeByte(megabytes, ins, bls, id, c);
    }
    assert image[at..at + INODE_SIZE] == InodeBytes(ins[id]);
    InodeRoundTrip(ins[id]);
  }

  lemma BlockRead(megabytes: nat, ins: seq<Inode>, bls: seq<Block>, b: nat)
    requires Fills(megabytes, ins, bls) && b < |bls|
    ensures
      var image, at := ImageOf(megabytes, ins, bls), (StartBlock(megabytes) + b) * BLOCK_SIZE;
      at + BLOCK_SIZE <= |image| && image[at..at + BLOCK_SIZE] == bls[b]
  {
    hide ByteAt, NumInodes, StartBlock, InodeFrom, InodeBytes;
    var image, at := ImageOf(megabytes, ins, bls), (StartBlock(megabytes) + b) * BLOCK_SIZE;
    BlockByte(megabytes, ins, bls, b, BLOCK_SIZE - 1);
    forall c | 0 <= c < BLOCK_SIZE ensures image[at + c] == bls[b][c] {
      BlockByte(megabytes, ins, bls, b, c);
    }
  }

  /** Every inode and every block is read back from the image as it was put there. */
  lemma ImageRead(megabytes: nat, ins: seq<Inode>, bls: seq<Block>)
    requires Fills(megabytes, ins, bls)
    ensures
      var image := ImageOf(megabytes, ins, bls);
      Readable(image) && InodesIn(image) == ins && BlocksIn(image) == bls
  {
    hide ByteAt, NumInodes, StartBlock, InodeFrom, InodeBytes, ImageOf, NumInodesOf, StartOf, Readable;
    var image := ImageOf(megabytes, ins, bls);
    ImageReadable(megabytes, ins, bls);
    forall id | 0 <= id < |ins| ensures InodesIn(image)[id] == ins[id] {
      InodeRead(megabytes, ins, bls, id);
    }
    forall b | 0 <= b < |bls| ensures BlocksIn(image)[b] == bls[b] {
      BlockRead(megabytes, ins, bls, b);
    }
  }

  // ----- writing in place

  /** The bytes from address `at` on are overwritten. */
  function Patched(image: seq<Byte>, at: nat, r: seq<Byte>): seq<Byte>
    requires at + |r| <= |image|
  {
    image[..at] + r + image[at + |r|..]
  }

  lemma PatchedAt(image: seq<Byte>, at: nat, r: seq<Byte>, a: nat)
    requires at + |r| <= |image| && a < |image|
    ensures Patched(image, at, r)[a] == if at <= a < at + |r| then r[a - at] else image[a]
  {
  }

  lemma OtherInodeByte(megabytes: nat, ins: seq<Inode>, bls: seq<Block>, id: nat, inode: Inode, a: nat)
    requires Fills(megabytes, ins, bls) && id < |ins| && Stored(inode)
    requires a < InodeAddress(id) || InodeAddress(id) + INODE_SIZE <= a
    ensures ByteAt(megabytes, ins[id := inode], bls, a) == ByteAt(megabytes, ins, bls, a)
  {
    hide NumInodes, StartBlock, SuperBytes, InodeBytes, Stored;
    assert a >= BLOCK_SIZE ==> (a - BLOCK_SIZE) / INODE_SIZE != id;
  }

  /** Writing an inode changes the 16 bytes of its record and nothing else. */
  lemma InodeWritten(megabytes: nat, ins: seq<Inode>, bls: seq<Block>, id: nat, inode: Inode)
    requires Fills(megabytes, ins, bls) && id < |ins| && Stored(inode)
    ensures InodeAddress(id) + INODE_SIZE <= megabytes * MEGABYTE
    ensures ImageOf(megabytes, ins[id := inode], bls) ==
            Patched(ImageOf(megabytes, ins, bls), InodeAddress(id), InodeBytes(inode))
  {
    hide NumInodes, StartBlock, SuperBytes, InodeBytes, ByteAt, Patched, Stored;
    InodeByte(megabytes, ins, bls, id, INODE_SIZE - 1);
    var at, ins' := InodeAddress(id), ins[id := inode];
    var image, image' := ImageOf(megabytes, ins, bls), ImageOf(megabytes, ins', bls);
    PatchedLength(image, at, InodeBytes(inode));
    forall a | 0 <= a < |image| ensures image'[a] == Patched(image, at, InodeBytes(inode))[a] {
      PatchedAt(image, at, InodeBytes(inode), a);
      if at <= a < at + INODE_SIZE {
        InodeByte(megabytes, ins', bls, id, a - at);
      } else {
        OtherInodeByte(megabytes, ins, bls, id, inode, a);
      }
    }
  }

  lemma PatchedLength(image: seq<Byte>, at: nat, r: seq<Byte>)
    requires at + |r| <= |image|
    ensures |Patched(image, at, r)| == |image|
  {
  }

  lemma OtherBlockByte(megabytes: nat, ins: seq<Inode>, bls: seq<Block>, b: nat, block: Block, a: nat)
    requires Fills(megabytes, ins, bls) && b < |bls| && |block| == BLOCK_SIZE
    requires a < BlockAddress(megabytes, b) || BlockAddress(megabytes, b) + BLOCK_SIZE <= a
    ensures ByteAt(megabytes, ins, bls[b := block], a) == ByteAt(megabytes, ins, bls, a)
  {
    hide NumInodes, StartBlock, SuperBytes, InodeBytes, Stored;
    assert a / BLOCK_SIZE - StartBlock(megabytes) != b;
  }

  /** Writing a block changes the bytes of that block and nothing else. */
  lemma BlockWritten(megabytes: nat, ins: seq<Inode>, bls: seq<Block>, b: nat, block: Block)
    requires Fills(megabytes, ins, bls) && b < |bls| && |block| == BLOCK_SIZE
    ensures BlockAddress(megabytes, b) + BLOCK_SIZE <= megabytes * MEGABYTE
    ensures ImageOf(megabytes, ins, bls[b := block]) ==
            Patched(ImageOf(megabytes, ins, bls), BlockAddress(megabytes, b), block)
  {
    hide NumInodes, StartBlock, SuperBytes, InodeBytes, ByteAt, Patched, Stored;
    BlockByte(megabytes, ins, bls, b, BLOCK_SIZE - 1);
    var at, bls' := BlockAddress(megabytes, b), bls[b := block];
    var image, image' := ImageOf(megabytes, ins, bls), ImageOf(megabytes, ins, bls');
    PatchedLength(image, at, block);
    forall a | 0 <= a < |image| ensures image'[a] == Patched(image, at, block)[a] {
      PatchedAt(image, at, block, a);
      if at <= a < at + BLOCK_SIZE {
        BlockByte(megabytes, ins, bls', b, a - at);
      } else {
        OtherBlockByte(megabytes, ins, bls, b, block, a);
      }
    }
  }

  // ----- from a tree to bytes and back

  /** A tree fits an image of this size, which has its areas apart. */
  ghost predicate FitsIn(t: Node, megabytes: nat) {
    && t.Dir? && Packable(t) && megabytes < 2048 && megabytes % 64 != 0
    && 1 + InodesOf(t) <= NumInodes(megabytes) && BlocksOf(t) <= NumInodes(megabytes)
  }

  /** Packs a tree into an image of the given size: the superblock has the magic number,
      the number of inodes and the start block, and the image holds the tree. */
  method PackImage(t: Node, megabytes: nat) returns (image: seq<Byte>)
    requires FitsIn(t, megabytes)
    ensures |image| == megabytes * MEGABYTE && Readable(image)
    ensures image[..4] == [0x34, 0xAE, 0x12, 0xAE]
    ensures image[4] as nat + 0x100 * image[5] as nat == megabytes % 64 * 1008 - 1
    ensures image[6] as nat + 0x100 * image[7] as nat == megabytes % 64 * 16 + 1
    ensures Image(InodesIn(image), BlocksIn(image), Root(t))
  {
    hide Encodes, Packable, NumInodes, InodesOf, BlocksOf, ImageOf, InodesIn, BlocksIn, Readable, Stored, StartBlock;
    Areas(megabytes);
    LayoutNumbers(megabytes);
    var packer := new Mkfs.Packer(NumInodes(megabytes), NumInodes(megabytes));
    var root := packer.VisitDir(t);
    image := ImageOf(megabytes, packer.inodes[..], packer.blocks[..]);
    ImageReadable(megabytes, packer.inodes[..], packer.blocks[..]);
    ImageRead(megabytes, packer.inodes[..], packer.blocks[..]);
    if t.entries == [] {
      EmptyRoot(t);
    }
  }

  lemma EmptyRoot(t: Node)
    requires t.Dir? && t.entries == []
    ensures BlocksOf(t) == 0
  {
    NoBlocks(t.entries);
    DirSizes(t.entries);
  }

  // ----- what a listing shows

  ghost function ListingAt(out: Listing, path: seq<nat>): Option<Listing>
    decreases |path|
  {
    if path == [] then Some(out)
    else if out.Directory? && path[0] < |out.entries| then ListingAt(out.entries[path[0]].listing, path[1..])
    else None
  }

  /** At every position of the tree, and nowhere else, the listing has the node: a file
      with its own number of bytes, a directory with 256 bytes an entry and its names in
      order. */
  ghost predicate Lists(out: Listing, t: Node, path: seq<nat>) {
    var p, o := Position(t, path), ListingAt(out, path);
    && (p.Some? <==> o.Some?)
    && (p.Some? && p.value.node.File? ==> o.value == RegFile(|p.value.node.data|))
    && (p.Some? && p.value.node.Dir? ==>
          && o.value.Directory? && o.value.size == 256 * |p.value.node.entries|
          && |o.value.entries| == |p.value.node.entries|
          && forall i :: 0 <= i < |o.value.entries| ==> o.value.entries[i].name == p.value.node.entries[i].name)
  }

  lemma {:induction false} OutlineAt(id: nat, start: nat, t: Node, path: seq<nat>)
    ensures At(id, start, t, path).Some? <==> ListingAt(Outline(t), path).Some?
    ensures At(id, start, t, path).Some? ==>
              ListingAt(Outline(t), path) == Some(Outline(At(id, start, t, path).value.node))
    decreases |path|
  {
    if path == [] {
    } else if t.Dir? && path[0] < |t.entries| {
      var es, c := t.entries, path[0];
      ItemsAt(es, c);
      OutlineAt(ChildId(id, es, c), ChildBlock(start, es, c), es[c].node, path[1..]);
    }
  }

  /** The outline of a tree lists it. */
  lemma OutlineLists(t: Node, path: seq<nat>)
    ensures Lists(Outline(t), t, path)
  {
    OutlineAt(ROOT_INODE, 0, t, path);
    if Position(t, path).Some? && Position(t, path).value.node.Dir? {
      var es := Position(t, path).value.node.entries;
      forall i | 0 <= i < |es| ensures Items(es)[i].name == es[i].name {
        ItemsAt(es, i);
      }
    }
  }

  /** Packing a tree into an image file and listing the file from inode 1 gives the
      tree's names, types, sizes and order. */
  method PackAndList(t: Node, megabytes: nat) returns (out: Listing)
    requires FitsIn(t, megabytes)
    ensures out == Outline(t) && forall path: seq<nat> :: Lists(out, t, path)
  {
    hide Encodes, InodesIn, BlocksIn, Readable, InodesOf, BlocksOf, NumInodes, Outline, Lists;
    var image := PackImage(t, megabytes);
    out := VisitInode(InodesIn(image), BlocksIn(image), ROOT_INODE, 0, t);
    forall path: seq<nat> ensures Lists(out, t, path) {
      OutlineLists(t, path);
    }
  }

  /** Packing a tree into an image file, mounting it, looking a file up by its path and
      reading it gives the file's bytes back. */
  method PackAndOpen(t: Node, megabytes: nat, name: seq<Byte>, count: nat, ghost path: seq<nat>)
    returns (r: Option<seq<Byte>>)
    requires FitsIn(t, megabytes) && count < WORD
    requires Position(t, path).Some? && Position(t, path).value.node.File?
    requires Slashless(NamesAlong(t, path)) && name == PathTo(t, path) && Clear(t, path)
    ensures
      var data := Position(t, path).value.node.data;
      r == Some(if count < |data| then data[..count] else data)
  {
    hide InodesIn, BlocksIn, Readable, InodesOf, BlocksOf, NumInodes, Image;
    var image := PackImage(t, megabytes);
    var mounted := Init(image);
    if !mounted {
      return None;
    }
    r := OpenFile(InodesIn(image), BlocksIn(image), t, name, count, path);
  }
}
