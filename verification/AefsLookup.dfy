/** The kernel's directory lookup on a packed image. */
module AefsLookup {
  import opened Wrappers
  import opened AefsSpec
  import opened AefsReaders
  import opened AefsLayout

  /** The byte a pointer to a C string points at. */
  function First(s: seq<Byte>): Byte { if s == [] then 0 else s[0] }

  function Signed(b: Byte): int { if b < 128 then b as int else b as int - 256 }

  /** The kernel's bounded string comparison never moves past the first bytes. */
  method Strncmp(s1: seq<Byte>, s2: seq<Byte>, n: nat) returns (r: int)
    ensures r == 0 <==> n == 0 || First(s1) == First(s2)
    ensures r < 0 <==> n > 0 && First(s1) != First(s2) &&
                       (First(s1) == 0 || (First(s2) != 0 && Signed(First(s1)) < Signed(First(s2))))
  {
    var i := 0;
    while i < n
      invariant i <= n && (i > 0 ==> First(s1) == First(s2))
    {
      if First(s1) != First(s2) {
        if First(s1) == 0 && First(s2) != 0 {
          return -1;
        }
        if First(s2) == 0 && First(s1) != 0 {
          return 1;
        }
        return if Signed(First(s1)) < Signed(First(s2)) then -1 else 1;
      }
      i := i + 1;
    }
    return 0;
  }

  // ----- entries of a directory as the lookup sees them

  /** The first byte of entry `s`; entries past the last child are blank. */
  function SlotByte(es: seq<Named>, s: nat): Byte {
    if s < |es| then First(es[s].name) else 0
  }

  /** The first of the entries `s` up to `n` that starts with `c`. */
  function Match(es: seq<Named>, c: Byte, s: nat, n: nat): (k: nat)
    requires s <= n
    ensures s <= k <= n && forall j :: s <= j < k ==> SlotByte(es, j) != c
    ensures k < n ==> SlotByte(es, k) == c
    decreases n - s
  {
    if s == n || SlotByte(es, s) == c then s else Match(es, c, s + 1, n)
  }

  /** Inode 0 is zero and so reads as an empty file. */
  const BLANK: Place := Place(0, 0, File([]))

  /** What entry `s` of a directory refers to. */
  ghost function Child(d: Place, s: nat): Place
    requires d.node.Dir?
  {
    var es := d.node.entries;
    if s < |es| then Place(ChildId(d.id, es, s), ChildBlock(d.start, es, s), es[s].node) else BLANK
  }

  function Slots(es: seq<Named>): nat { PER_BLOCK * BlocksFor(ENTRY_SIZE * |es|) }

  /** What a lookup finds. The block count of an empty directory wraps around, and
      its inodes name block 0: the first block of the root directory is searched. */
  ghost function Found(root: Place, p: Place, name: seq<Byte>): Option<Place>
    requires root.node.Dir?
  {
    if p.node.File? then None
    else
      var d, n := if p.node.entries == [] then root else p, if p.node.entries == []
          then PER_BLOCK else Slots(p.node.entries);
      var k := Match(d.node.entries, First(name), 0, n);
      if k == n then None else Some(Child(d, k))
  }

  ghost function IdOf(p: Option<Place>): Option<nat> {
    if p.None? then None else Some(p.value.id)
  }

  // ----- what the image says about them

  ghost predicate HeldAt(ins: seq<Inode>, bls: seq<Block>, p: Place) {
    Encodes(ins, bls, p.id, p.start, p.node) && Packable(p.node)
  }

  /** An image with a root directory whose blocks come first; if it is empty, the
      first block is still zero. */
  ghost predicate Image(ins: seq<Inode>, bls: seq<Block>, root: Place) {
    && HeldAt(ins, bls, root) && root.start == 0 && root.node.Dir?
    && (root.node.entries == [] ==> bls != [] && bls[0] == Zeros(BLOCK_SIZE))
    && ins != [] && ins[0] == ZERO_INODE
  }

  function Slot(block: Block, j: nat): (entry: seq<Byte>)
    requires |block| == BLOCK_SIZE && j < PER_BLOCK
    ensures |entry| == ENTRY_SIZE
  {
    block[j * ENTRY_SIZE..j * ENTRY_SIZE + ENTRY_SIZE]
  }

  /** Block `block` holds the entries from number `first` on. */
  ghost predicate Shows(block: Block, d: Place, first: nat)
    requires d.node.Dir?
  {
    && |block| == BLOCK_SIZE
    && forall j :: 0 <= j < PER_BLOCK ==>
         && First(Slot(block, j)) == SlotByte(d.node.entries, first + j)
         && EntryId(Slot(block, j)) == Child(d, first + j).id
  }

  lemma EntryStarts(name: seq<Byte>, id: nat)
    requires |name| <= NAME_LEN && id < 0x10000
    ensures |EntryBytes(name, id)| == ENTRY_SIZE && First(EntryBytes(name, id)) == First(name)
    ensures EntryId(EntryBytes(name, id)) == id
  {
  }

  lemma SlotShows(ins: seq<Inode>, bls: seq<Block>, d: Place, s: nat)
    requires HeldAt(ins, bls, d) && d.node.Dir? && s < Slots(d.node.entries)
    ensures d.start + s / PER_BLOCK < |bls|
    ensures
      var block := bls[d.start + s / PER_BLOCK];
      && |block| == BLOCK_SIZE
      && First(Slot(block, s % PER_BLOCK)) == SlotByte(d.node.entries, s)
      && EntryId(Slot(block, s % PER_BLOCK)) == Child(d, s).id
  {
    var es := d.node.entries;
    var name, id := if s < |es| then es[s].name else [], if s < |es| then ChildId(d.id, es, s) else 0;
    assert EntryAt(bls, d.start, s, name, id);
    EntryStarts(name, id);
  }

  lemma BlockShows(ins: seq<Inode>, bls: seq<Block>, d: Place, b: nat)
    requires HeldAt(ins, bls, d) && d.node.Dir? && b < BlocksFor(ENTRY_SIZE * |d.node.entries|)
    ensures d.start + b < |bls| && Shows(bls[d.start + b], d, PER_BLOCK * b)
  {
    hide HeldAt, SlotByte, Child, Slot, BlocksFor;
    assert PER_BLOCK * b / PER_BLOCK == b;
    SlotShows(ins, bls, d, PER_BLOCK * b);
    var block := bls[d.start + b];
    forall j | 0 <= j < PER_BLOCK
      ensures First(Slot(block, j)) == SlotByte(d.node.entries, PER_BLOCK * b + j)
      ensures EntryId(Slot(block, j)) == Child(d, PER_BLOCK * b + j).id
    {
      var s := PER_BLOCK * b + j;
      assert s / PER_BLOCK == b && s % PER_BLOCK == j;
      SlotShows(ins, bls, d, s);
    }
  }

  // ----- the lookup

  /** The first entry of a block that compares equal to `name`. */
  method SearchBlock(block: Block, name: seq<Byte>) returns (j: nat)
    requires |block| == BLOCK_SIZE
    ensures j <= PER_BLOCK && forall i :: 0 <= i < j ==> First(Slot(block, i)) != First(name)
    ensures j < PER_BLOCK ==> First(Slot(block, j)) == First(name)
  {
    j := 0;
    while j < PER_BLOCK
      invariant j <= PER_BLOCK && forall i :: 0 <= i < j ==> First(Slot(block, i)) != First(name)
    {
      var r := Strncmp(Slot(block, j), name, NAME_LEN);
      if r == 0 {
        return;
      }
      j := j + 1;
    }
  }

  /** The search has `cur` in hand after `i` blocks. */
  ghost predicate Walking(p: Place, i: nat, cur: nat)
    requires p.node.Dir?
  {
    var es := p.node.entries;
    if es == [] then cur == p.id || cur == 0
    else Following(p.id, ChildId(p.id, es, |es|), BlocksFor(ENTRY_SIZE * |es|), i, cur)
  }

  /** The directory that is searched, and its entry number at block `i`. */
  ghost function Searched(root: Place, p: Place): Place
    requires p.node.Dir?
  {
    if p.node.entries == [] then root else p
  }

  ghost function SlotOf(p: Place, i: nat): nat
    requires p.node.Dir?
  {
    if p.node.entries == [] then 0 else PER_BLOCK * i
  }

  lemma WalkNext(ins: seq<Inode>, bls: seq<Block>, root: Place, p: Place, i: nat, cur: nat)
    requires Image(ins, bls, root) && HeldAt(ins, bls, p) && p.node.Dir? && Walking(p, i, cur)
    ensures cur < |ins|
    ensures
      var cur' := if i % INODE_BLOCKS == 0 && i != 0 then ins[cur].tail else cur;
      Walking(p, i + 1, cur')
  {
    var es := p.node.entries;
    EncodesBounds(ins, bls, p.id, p.start, p.node);
    if es == [] {
      NoBlocks(es);
      ChainTail(ins, p.id, ChildId(p.id, es, |es|), BlocksFor(ENTRY_SIZE * |es|), p.start, 0);
    } else {
      FollowNext(ins, p.id, ChildId(p.id, es, |es|), BlocksFor(ENTRY_SIZE * |es|), p.start, i, cur);
    }
  }

  /** Block 0 holds the first entries of the root directory, blank ones if it is empty. */
  lemma FirstBlockShows(ins: seq<Inode>, bls: seq<Block>, root: Place)
    requires Image(ins, bls, root)
    ensures bls != [] && Shows(bls[0], root, 0)
  {
    hide HeldAt, Shows;
    if root.node.entries == [] {
      ZeroShows(bls[0], root);
    } else {
      RootBlock(root, ins, bls);
      BlockShows(ins, bls, root, 0);
    }
  }

  lemma RootBlock(root: Place, ins: seq<Inode>, bls: seq<Block>)
    requires HeldAt(ins, bls, root) && root.node.Dir? && root.node.entries != []
    ensures 0 < BlocksFor(ENTRY_SIZE * |root.node.entries|)
  {
    EntryPlace(root.node.entries, 0);
  }

  lemma ZeroShows(block: Block, d: Place)
    requires block == Zeros(BLOCK_SIZE) && d.node.Dir? && d.node.entries == []
    ensures Shows(block, d, 0)
  {
    forall j | 0 <= j < PER_BLOCK
      ensures First(Slot(block, j)) == 0 && EntryId(Slot(block, j)) == 0
    {
    }
  }

  lemma WalkBlock(ins: seq<Inode>, bls: seq<Block>, root: Place, p: Place, i: nat, cur: nat)
    requires Image(ins, bls, root) && HeldAt(ins, bls, p) && p.node.Dir? && Walking(p, i + 1, cur)
    requires p.node.entries != [] ==> i < BlocksFor(ENTRY_SIZE * |p.node.entries|)
    ensures cur < |ins| && |ins[cur].blocks| == INODE_BLOCKS && ins[cur].blocks[i % INODE_BLOCKS] < |bls|
    ensures Searched(root, p).node.Dir?
    ensures Shows(bls[ins[cur].blocks[i % INODE_BLOCKS]], Searched(root, p), SlotOf(p, i))
  {
    hide Shows;
    var es := p.node.entries;
    EncodesBounds(ins, bls, p.id, p.start, p.node);
    if es == [] {
      FirstBlockShows(ins, bls, root);
    } else {
      TailsNext(i);
      ChainBlock(ins, p.id, ChildId(p.id, es, |es|), BlocksFor(ENTRY_SIZE * |es|), p.start, i);
      BlockShows(ins, bls, p, i);
    }
  }

  /** No entry before number `s` matches. */
  ghost predicate Missed(d: Place, c: Byte, s: nat)
    requires d.node.Dir?
  {
    forall j :: 0 <= j < s ==> SlotByte(d.node.entries, j) != c
  }

  lemma Hit(root: Place, p: Place, name: seq<Byte>, block: Block, s: nat, j: nat)
    requires root.node.Dir? && p.node.Dir? && Shows(block, Searched(root, p), s) && j < PER_BLOCK
    requires Missed(Searched(root, p), First(name), s)
    requires forall i :: 0 <= i < j ==> First(Slot(block, i)) != First(name)
    requires First(Slot(block, j)) == First(name)
    requires s + j < if p.node.entries == [] then PER_BLOCK else Slots(p.node.entries)
    ensures IdOf(Found(root, p, name)) == Some(EntryId(Slot(block, j)))
  {
    hide Slot, EntryId;
    var d := Searched(root, p);
    forall i | 0 <= i < s + j ensures SlotByte(d.node.entries, i) != First(name) {
      if i >= s {
        assert First(Slot(block, i - s)) != First(name);
      }
    }
  }

  lemma MissedMore(d: Place, c: Byte, block: Block, s: nat)
    requires d.node.Dir? && Shows(block, d, s) && Missed(d, c, s)
    requires forall i :: 0 <= i < PER_BLOCK ==> First(Slot(block, i)) != c
    ensures Missed(d, c, s + PER_BLOCK)
  {
    hide Slot, EntryId;
    forall i | 0 <= i < s + PER_BLOCK ensures SlotByte(d.node.entries, i) != c {
      if i >= s {
        assert First(Slot(block, i - s)) != c;
      }
    }
  }

  lemma WholeBlocks(size: nat)
    requires size < 0x100_0000
    ensures if size == 0 then DivCeil(size, BLOCK_SIZE) > 0 else DivCeil(size, BLOCK_SIZE) == BlocksFor(size)
  {
    BlocksForIs(size);
  }

  lemma HeldHeader(ins: seq<Inode>, bls: seq<Block>, p: Place)
    requires HeldAt(ins, bls, p)
    ensures p.id < |ins| && (ins[p.id].kind == DIR <==> p.node.Dir?)
    ensures p.node.Dir? ==> ins[p.id].Size() == ENTRY_SIZE * |p.node.entries| < 0x100_0000
  {
    EncodesBounds(ins, bls, p.id, p.start, p.node);
  }

  lemma DirSize(ins: seq<Inode>, bls: seq<Block>, p: Place)
    requires HeldAt(ins, bls, p)
    ensures p.id < |ins| && (ins[p.id].kind == DIR <==> p.node.Dir?)
    ensures p.node.Dir? && p.node.entries == [] ==> DivCeil(ins[p.id].Size(), BLOCK_SIZE) > 0
    ensures p.node.Dir? && p.node.entries != [] ==>
              DivCeil(ins[p.id].Size(), BLOCK_SIZE) == BlocksFor(ENTRY_SIZE * |p.node.entries|)
    ensures p.node.Dir? ==> Walking(p, 0, p.id)
  {
    hide HeldAt, DivCeil, BlocksFor;
    HeldHeader(ins, bls, p);
    if p.node.Dir? {
      WholeBlocks(ENTRY_SIZE * |p.node.entries|);
    }
  }

  /** Looks a name up in a packed directory: the first entry that starts with the same
      byte is found. */
  method Lookup(ins: seq<Inode>, bls: seq<Block>, id: nat, name: seq<Byte>, ghost root: Place, ghost p: Place)
    returns (r: Option<nat>)
    requires Image(ins, bls, root) && HeldAt(ins, bls, p) && id == p.id
    ensures r == IdOf(Found(root, p, name))
  {
    hide HeldAt, Image, Walking, Shows, Slot, EntryId, DivCeil, BlocksFor, Missed, Found;
    DirSize(ins, bls, p);
    ImageRoot(ins, bls, root);
    if ins[id].kind != DIR {
      NotFound(root, p, name);
      return None;
    }
    ghost var d := Searched(root, p);
    var num := DivCeil(ins[id].Size(), BLOCK_SIZE);
    var cur, i := id, 0;
    MissedNone(d, First(name));
    while i < num
      invariant i <= num && Walking(p, i, cur)
      invariant Missed(d, First(name), if i == 0 then 0 else SlotOf(p, i - 1) + PER_BLOCK)
    {
      WalkNext(ins, bls, root, p, i, cur);
      if i % INODE_BLOCKS == 0 && i != 0 {
        cur := ins[cur].tail;
      }
      WalkBlock(ins, bls, root, p, i, cur);
      var block := bls[ins[cur].blocks[i % INODE_BLOCKS]];
      ShowsSize(block, d, SlotOf(p, i));
      var j := SearchBlock(block, name);
      MissedLess(d, First(name), if i == 0 then 0 else SlotOf(p, i - 1) + PER_BLOCK, SlotOf(p, i));
      if j < PER_BLOCK {
        Hit(root, p, name, block, SlotOf(p, i), j);
        return Some(EntryId(Slot(block, j)));
      }
      MissedMore(d, First(name), block, SlotOf(p, i));
      i := i + 1;
    }
    NotFound(root, p, name);
    return None;
  }

  lemma ImageRoot(ins: seq<Inode>, bls: seq<Block>, root: Place)
    requires Image(ins, bls, root)
    ensures root.node.Dir?
  {
  }

  lemma ShowsSize(block: Block, d: Place, s: nat)
    requires d.node.Dir? && Shows(block, d, s)
    ensures |block| == BLOCK_SIZE
  {
  }

  lemma MissedNone(d: Place, c: Byte)
    requires d.node.Dir?
    ensures Missed(d, c, 0)
  {
  }

  lemma MissedLess(d: Place, c: Byte, s: nat, s': nat)
    requires d.node.Dir? && Missed(d, c, s) && s' <= s
    ensures Missed(d, c, s')
  {
  }

  lemma NotFound(root: Place, p: Place, name: seq<Byte>)
    requires root.node.Dir?
    requires p.node.Dir? ==>
               Missed(Searched(root, p), First(name), if p.node.entries == [] then PER_BLOCK else Slots(p.node.entries))
    ensures Found(root, p, name) == None
  {
  }

  // ----- what is found

  /** No earlier entry of the directory starts with the same byte. */
  ghost predicate FirstOfItsByte(es: seq<Named>, i: nat)
    requires i < |es|
  {
    forall j :: 0 <= j < i ==> First(es[j].name) != First(es[i].name)
  }

  lemma SlotsEnough(es: seq<Named>)
    requires Packable(Dir(es))
    ensures |es| <= Slots(es)
  {
    BlocksForIs(ENTRY_SIZE * |es|);
  }

  lemma ChildrenDiffer(d: Place, i: nat, j: nat)
    requires d.node.Dir? && i < j < |d.node.entries|
    ensures Child(d, i).id < Child(d, j).id
  {
    ChildBefore(d.id, d.start, d.node.entries, i, j);
    InodesPositive(d.node.entries[i].node);
  }

  /** A lookup of a child's name finds some child at or before it that starts with
      the same byte. */
  lemma FindsSome(root: Place, p: Place, i: nat) returns (k: nat)
    requires root.node.Dir? && p.node.Dir? && Packable(p.node) && i < |p.node.entries|
    ensures k <= i && First(p.node.entries[k].name) == First(p.node.entries[i].name)
    ensures Found(root, p, p.node.entries[i].name) == Some(Child(p, k))
    ensures k == i <==> FirstOfItsByte(p.node.entries, i)
  {
    var es := p.node.entries;
    SlotsEnough(es);
    k := Match(es, First(es[i].name), 0, Slots(es));
    assert SlotByte(es, i) == First(es[i].name);
    assert forall j :: 0 <= j < |es| ==> SlotByte(es, j) == First(es[j].name);
  }

  /** A child is found by its own name exactly when no earlier sibling starts with
      the same byte. */
  lemma FindsChildIff(root: Place, p: Place, i: nat)
    requires root.node.Dir? && p.node.Dir? && Packable(p.node) && i < |p.node.entries|
    ensures Found(root, p, p.node.entries[i].name) == Some(Child(p, i)) <==> FirstOfItsByte(p.node.entries, i)
  {
    var k := FindsSome(root, p, i);
    if k < i {
      ChildrenDiffer(p, k, i);
    }
  }

  /** A lookup in a non-empty directory fails exactly when no child starts with the
      name's first byte. */
  lemma RefusesIff(root: Place, p: Place, name: seq<Byte>)
    requires root.node.Dir? && p.node.Dir? && Packable(p.node) && p.node.entries != [] && First(name) != 0
    ensures Found(root, p, name) == None <==>
            forall i :: 0 <= i < |p.node.entries| ==> First(p.node.entries[i].name) != First(name)
  {
    var es := p.node.entries;
    SlotsEnough(es);
    assert forall j :: 0 <= j < |es| ==> SlotByte(es, j) == First(es[j].name);
  }

  /** An empty name, as between two slashes, matches the first blank entry: it is refused
      exactly if the entries fill their blocks, and otherwise leads to inode 0. */
  lemma EmptyName(root: Place, p: Place)
    requires root.node.Dir? && p.node.Dir? && Packable(p.node) && p.node.entries != []
    ensures Found(root, p, []) == if |p.node.entries| % 4 == 0 then None else Some(Place(0, 0, File([])))
  {
    var es := p.node.entries;
    BlocksForIs(ENTRY_SIZE * |es|);
    SlotsEnough(es);
    assert Slots(es) == |es| <==> |es| % 4 == 0;
    forall j | 0 <= j < |es| ensures SlotByte(es, j) != 0 {
      PackableChild(es, j);
    }
    assert SlotByte(es, |es|) == 0;
  }

  /** A lookup in an empty directory, which may be the root itself, fails exactly when
      no name among the first four of the root starts with the same byte. */
  lemma EmptyRefusesIff(root: Place, p: Place, name: seq<Byte>)
    requires root.node.Dir? && p.node == Dir([]) && First(name) != 0
    ensures Found(root, p, name) == None <==>
            forall i :: 0 <= i < |root.node.entries| && i < PER_BLOCK ==>
                First(root.node.entries[i].name) != First(name)
  {
    var es := root.node.entries;
    assert forall j :: 0 <= j < |es| ==> SlotByte(es, j) == First(es[j].name);
  }

  /** So an empty directory that is the root's first entry contains itself. */
  lemma EmptyFindsItself(root: Place, rest: seq<Named>, name: seq<Byte>)
    requires root.node == Dir([Named(name, Dir([]))] + rest)
    ensures Found(root, Child(root, 0), name) == Some(Child(root, 0))
  {
    assert root.node.entries[0] == Named(name, Dir([]));
    assert SlotByte(root.node.entries, 0) == First(name);
  }

  lemma ZeroHeader(inode: Inode)
    requires inode == ZERO_INODE
    ensures inode.kind == REG && inode.Size() == 0 && inode.tail == 0
  {
  }

  /** An inode of size zero without a tail holds an empty file. */
  lemma {:induction false} EmptyFileEncoded(ins: seq<Inode>, bls: seq<Block>, id: nat, start: nat, t: Node)
    requires id < |ins| && ins[id].kind == REG && ins[id].Size() == 0 && ins[id].tail == 0
    requires t.File? && t.data == [] && start <= |bls|
    ensures Encodes(ins, bls, id, start, t) && Packable(t)
  {
    hide BlocksFor;
    BlocksForIs(|t.data|);
  }

  lemma ChildEncoded(ins: seq<Inode>, bls: seq<Block>, d: Place, s: nat)
    requires Encodes(ins, bls, d.id, d.start, d.node) && d.node.Dir? && s < |d.node.entries|
    ensures Encodes(ins, bls, ChildId(d.id, d.node.entries, s), ChildBlock(d.start, d.node.entries, s),
        d.node.entries[s].node)
  {
    hide Chain, BlocksFor, EntryAt, Unused, ChildId, ChildBlock;
  }

  lemma {:induction false} BlankHeld(ins: seq<Inode>, bls: seq<Block>)
    requires ins != [] && ins[0].kind == REG && ins[0].Size() == 0 && ins[0].tail == 0
    ensures HeldAt(ins, bls, BLANK)
  {
    hide Encodes, Packable;
    EmptyFileEncoded(ins, bls, BLANK.id, BLANK.start, BLANK.node);
  }

  lemma {:induction false} ChildHeld(ins: seq<Inode>, bls: seq<Block>, d: Place, s: nat)
    requires HeldAt(ins, bls, d) && d.node.Dir? && HeldAt(ins, bls, BLANK)
    ensures HeldAt(ins, bls, Child(d, s))
  {
    hide Encodes, Packable, ChildId, ChildBlock;
    if s < |d.node.entries| {
      PackableChild(d.node.entries, s);
      ChildEncoded(ins, bls, d, s);
    }
  }

  lemma {:induction false} ImageBlank(ins: seq<Inode>, bls: seq<Block>, root: Place)
    requires Image(ins, bls, root)
    ensures HeldAt(ins, bls, BLANK) && HeldAt(ins, bls, root) && root.node.Dir?
  {
    hide HeldAt;
    ZeroHeader(ins[0]);
    BlankHeld(ins, bls);
  }

  /** Whatever is found is a node that the image holds. */
  lemma {:induction false} FoundHeld(ins: seq<Inode>, bls: seq<Block>, root: Place, p: Place, name: seq<Byte>)
    requires Image(ins, bls, root) && HeldAt(ins, bls, p) && Found(root, p, name).Some?
    ensures HeldAt(ins, bls, Found(root, p, name).value)
  {
    hide HeldAt, Image, BlocksFor;
    ImageBlank(ins, bls, root);
    var d, n := Searched(root, p), if p.node.entries == [] then PER_BLOCK else Slots(p.node.entries);
    ChildHeld(ins, bls, d, Match(d.node.entries, First(name), 0, n));
  }
}
