/** Where an image keeps things: the areas of the file, and which inodes and
    blocks belong to which node of the packed tree. */
module AefsLayout {
  import opened Wrappers
  import opened AefsSpec

  const INODE_SIZE: nat := 16

  // ----- areas of the image

  function Blocks(megabytes: nat): nat { megabytes * 0x10_0000 / BLOCK_SIZE % 0x10000 }

  function InodeBlocks(megabytes: nat): nat { DivCeil(Blocks(megabytes) * INODE_SIZE, BLOCK_SIZE) % 0x10000 }

  function NumInodes(megabytes: nat): nat { (Blocks(megabytes) - InodeBlocks(megabytes) - 1) % 0x10000 }

  function StartBlock(megabytes: nat): nat { (1 + InodeBlocks(megabytes)) % 0x10000 }

  /** The byte address of an inode, and of a data block. */
  function InodeAddress(id: nat): nat { BLOCK_SIZE + id * INODE_SIZE }
  function BlockAddress(megabytes: nat, b: nat): nat { (StartBlock(megabytes) + b) * BLOCK_SIZE }

  /** Every inode ends before every data block, and as many data blocks as inodes
      fit in the file, exactly for sizes that are not a multiple of 64 MB. */
  lemma AreasFit(megabytes: nat)
    requires megabytes < 2048
    ensures
      && (forall id: nat, b: nat :: id < NumInodes(megabytes) ==>
          InodeAddress(id) + INODE_SIZE <= BlockAddress(megabytes, b))
      && BlockAddress(megabytes, NumInodes(megabytes)) <= megabytes * 0x10_0000
      <==> megabytes % 64 != 0
  {
    var b := Blocks(megabytes);
    assert b == megabytes % 64 * 1024;
    if megabytes % 64 == 0 {
      assert InodeAddress(1) + INODE_SIZE > BlockAddress(megabytes, 0);
    } else {
      assert InodeBlocks(megabytes) == megabytes % 64 * 16;
      assert NumInodes(megabytes) == megabytes % 64 * 1008 - 1;
    }
  }

  // ----- who owns what

  datatype Place = Place(id: nat, start: nat, node: Node)

  /** The node reached from the root by child positions, with its first inode and
      first block. */
  ghost function At(id: nat, start: nat, t: Node, path: seq<nat>): Option<Place>
    decreases path
  {
    if path == [] then Some(Place(id, start, t))
    else if t.Dir? && path[0] < |t.entries| then
      At(ChildId(id, t.entries, path[0]), ChildBlock(start, t.entries, path[0]), t.entries[path[0]].node, path[1..])
    else None
  }

  /** The inode itself and its tails. */
  ghost predicate OwnsInode(p: Place, i: nat) {
    match p.node
    case File(data) => p.id <= i < p.id + 1 + Tails(BlocksFor(|data|))
    case Dir(es) =>
      || i == p.id
      || ChildId(p.id, es, |es|) <= i < ChildId(p.id, es, |es|) + Tails(BlocksFor(ENTRY_SIZE * |es|))
  }

  /** The blocks with its contents. */
  ghost predicate OwnsBlock(p: Place, b: nat) {
    match p.node
    case File(data) => p.start <= b < p.start + BlocksFor(|data|)
    case Dir(es) => p.start <= b < p.start + BlocksFor(ENTRY_SIZE * |es|)
  }

  lemma {:induction false} OwnedInside(id: nat, start: nat, t: Node, path: seq<nat>, i: nat)
    requires At(id, start, t, path).Some?
    ensures OwnsInode(At(id, start, t, path).value, i) ==> id <= i < id + InodesOf(t)
    ensures OwnsBlock(At(id, start, t, path).value, i) ==> start <= i < start + BlocksOf(t)
    decreases path
  {
    if path == [] {
      if t.Dir? {
        DirSizes(t.entries);
      }
    } else {
      var es, c := t.entries, path[0];
      ChildInside(id, start, es, c);
      ChildBefore(id, start, es, c, c + 1);
      OwnedInside(ChildId(id, es, c), ChildBlock(start, es, c), es[c].node, path[1..], i);
    }
  }

  /** What a directory owns itself lies outside all of its children. */
  lemma {:induction false} OwnedBesideChild(id: nat, start: nat, es: seq<Named>, path: seq<nat>, i: nat)
    requires path != [] && At(id, start, Dir(es), path).Some?
    ensures !(OwnsInode(Place(id, start, Dir(es)), i) && OwnsInode(At(id, start, Dir(es), path).value, i))
    ensures !(OwnsBlock(Place(id, start, Dir(es)), i) && OwnsBlock(At(id, start, Dir(es), path).value, i))
  {
    var c := path[0];
    ChildBefore(id, start, es, c, |es|);
    OwnedInside(ChildId(id, es, c), ChildBlock(start, es, c), es[c].node, path[1..], i);
  }

  /** Two nodes at different places of the tree share no inode and no block. */
  lemma {:induction false} NothingShared(id: nat, start: nat, t: Node, p: seq<nat>, q: seq<nat>, i: nat)
    requires p != q && At(id, start, t, p).Some? && At(id, start, t, q).Some?
    ensures !(OwnsInode(At(id, start, t, p).value, i) && OwnsInode(At(id, start, t, q).value, i))
    ensures !(OwnsBlock(At(id, start, t, p).value, i) && OwnsBlock(At(id, start, t, q).value, i))
    decreases |p|
  {
    if p == [] {
      OwnedBesideChild(id, start, t.entries, q, i);
    } else if q == [] {
      OwnedBesideChild(id, start, t.entries, p, i);
    } else {
      var es, c, e := t.entries, p[0], q[0];
      if c == e {
        NothingShared(ChildId(id, es, c), ChildBlock(start, es, c), es[c].node, p[1..], q[1..], i);
      } else {
        OwnedInside(ChildId(id, es, c), ChildBlock(start, es, c), es[c].node, p[1..], i);
        OwnedInside(ChildId(id, es, e), ChildBlock(start, es, e), es[e].node, q[1..], i);
        if c < e { ChildBefore(id, start, es, c, e); } else { ChildBefore(id, start, es, e, c); }
      }
    }
  }

  /** In a packed image every node of the tree is held where its path says. */
  lemma {:induction false} EncodedAt(ins: seq<Inode>, bls: seq<Block>, id: nat, start: nat, t: Node, path: seq<nat>)
    requires Encodes(ins, bls, id, start, t) && At(id, start, t, path).Some?
    ensures
      var p := At(id, start, t, path).value;
      Encodes(ins, bls, p.id, p.start, p.node)
    decreases path
  {
    if path == [] {
    } else {
      var es, c := t.entries, path[0];
      EncodedAt(ins, bls, ChildId(id, es, c), ChildBlock(start, es, c), es[c].node, path[1..]);
    }
  }
}
