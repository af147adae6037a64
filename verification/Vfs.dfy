/** Path lookup: a copy of the path is cut at its slashes and each piece is looked up
    in turn. */
module Vfs {
  import opened Wrappers
  import opened AefsSpec
  import opened AefsReaders
  import opened AefsLayout
  import opened AefsLookup

  const SLASH: Byte := 47
  const ROOT_INODE: nat := 1

  // ----- paths

  /** The length of the part of a path before its first slash. */
  function Span(path: seq<Byte>): (n: nat)
    ensures n <= |path| && forall i :: 0 <= i < n ==> path[i] != SLASH
    ensures n < |path| ==> path[n] == SLASH
  {
    if path == [] || path[0] == SLASH then 0 else 1 + Span(path[1..])
  }

  /** The pieces between slashes; a slash at the end adds none. */
  function Components(path: seq<Byte>): seq<seq<Byte>>
    decreases |path|
  {
    if path == [] then []
    else
      var n := Span(path);
      if n == |path| then [path] else [path[..n]] + Components(path[n + 1..])
  }

  function Join(names: seq<seq<Byte>>): seq<Byte> {
    if names == [] then [] else if |names| == 1 then names[0] else names[0] + [SLASH] + Join(names[1..])
  }

  ghost predicate IsName(name: seq<Byte>) {
    name != [] && name[0] != 0 && forall i :: 0 <= i < |name| ==> name[i] != SLASH
  }

  lemma {:induction false} SpanOf(name: seq<Byte>, rest: seq<Byte>)
    requires forall i :: 0 <= i < |name| ==> name[i] != SLASH
    requires rest == [] || rest[0] == SLASH
    ensures Span(name + rest) == |name|
  {
    if name == [] {
      assert name + rest == rest;
    } else {
      assert (name + rest)[1..] == name[1..] + rest;
      SpanOf(name[1..], rest);
    }
  }

  /** Joining names with slashes and cutting the path again gives the names back. */
  lemma {:induction false} ComponentsOfJoin(names: seq<seq<Byte>>)
    requires forall i :: 0 <= i < |names| ==> IsName(names[i])
    ensures Components(Join(names)) == names
  {
    if |names| == 1 {
      assert IsName(names[0]);
      SpanOf(names[0], []);
      assert names[0] + [] == names[0];
    } else if |names| > 1 {
      var name, rest := names[0], [SLASH] + Join(names[1..]);
      assert IsName(name);
      SpanOf(name, rest);
      var path := name + rest;
      assert Join(names) == path;
      assert path[..|name|] == name && path[|name| + 1..] == Join(names[1..]);
      ComponentsOfJoin(names[1..]);
      assert [name] + names[1..] == names;
    }
  }

  /** A slash at the end of a path changes nothing. */
  lemma {:induction false} TrailingSlash(names: seq<seq<Byte>>)
    requires names != [] && forall i :: 0 <= i < |names| ==> IsName(names[i])
    ensures Components(Join(names) + [47]) == names
  {
    assert IsName(names[0]);
    if |names| == 1 {
      SpanOf(names[0], [SLASH]);
      var path := names[0] + [SLASH];
      assert path[..|names[0]|] == names[0] && path[|names[0]| + 1..] == [];
    } else {
      var name, rest := names[0], [SLASH] + (Join(names[1..]) + [SLASH]);
      SpanOf(name, rest);
      var path := name + rest;
      assert Join(names) + [SLASH] == path;
      assert path[..|name|] == name && path[|name| + 1..] == Join(names[1..]) + [SLASH];
      TrailingSlash(names[1..]);
      assert [name] + names[1..] == names;
    }
  }

  /** Looks the pieces up one after the other. */
  ghost function Resolve(root: Place, p: Place, names: seq<seq<Byte>>): Option<Place>
    requires root.node.Dir?
    decreases |names|
  {
    if names == [] then Some(p)
    else
      var q := Found(root, p, names[0]);
      if q.None? then None else Resolve(root, q.value, names[1..])
  }

  // ----- the copied path

  /** Counts the bytes at `p` before the terminator, or before the first `stop`. */
  method Count(buf: array<Byte>, p: nat, stop: Byte, ghost rest: seq<Byte>) returns (n: nat)
    requires p <= buf.Length && buf[p..] == rest + [0] && forall i :: 0 <= i < |rest| ==> rest[i] != 0
    ensures stop == 0 ==> n == |rest|
    ensures stop == SLASH ==> n == Span(rest)
  {
    n := 0;
    assert forall i :: 0 <= i <= |rest| ==> buf[p + i] == buf[p..][i];
    while buf[p + n] != 0 && buf[p + n] != stop
      invariant n <= |rest| && forall i :: 0 <= i < n ==> rest[i] != stop
      decreases |rest| - n
    {
      n := n + 1;
    }
  }

  /** What is left of `rest` after a terminator was written `n` bytes on. */
  lemma CutAt(buf: seq<Byte>, rest: seq<Byte>, n: nat, inc: nat)
    requires n <= |rest| && buf == (rest + [0])[n := 0] && inc == (if n == |rest| then n else n + 1)
    requires forall i :: 0 <= i < |rest| ==> rest[i] != 0
    ensures CString(buf) == rest[..n] && buf[inc..] == rest[inc..] + [0]
  {
    var tail := [0] + (rest + [0])[n + 1..];
    assert buf == rest[..n] + tail;
    CStringOf(rest[..n], tail);
  }

  lemma {:induction false} ComponentsCut(rest: seq<Byte>, inc: nat)
    requires rest != [] && inc == if Span(rest) == |rest| then |rest| else Span(rest) + 1
    ensures Components(rest) == [rest[..Span(rest)]] + Components(rest[inc..])
  {
    assert Span(rest) == |rest| ==> rest[..|rest|] == rest;
  }

  /** Cuts the first piece off the string at `p` and says how far to move on. */
  method Cut(buf: array<Byte>, p: nat, ghost rest: seq<Byte>) returns (name: seq<Byte>, inc: nat)
    requires p <= buf.Length && buf[p..] == rest + [0] && rest != []
    requires forall i :: 0 <= i < |rest| ==> rest[i] != 0
    modifies buf
    ensures 0 < inc <= |rest| && buf[p + inc..] == rest[inc..] + [0]
    ensures Components(rest) == [name] + Components(rest[inc..])
  {
    hide CString, Components;
    var len := Count(buf, p, 0, rest);
    var slash := Count(buf, p, SLASH, rest);
    if slash != len {
      buf[p + slash] := 0;
      inc := slash + 1;
    } else {
      inc := slash;
    }
    assert buf[p..] == (rest + [0])[slash := 0];
    assert buf[p + inc..] == buf[p..][inc..];
    CutAt(buf[p..], rest, slash, inc);
    ComponentsCut(rest, inc);
    name := CString(buf[p..]);
  }

  // ----- the walk

  ghost function Root(t: Node): Place { Place(ROOT_INODE, 0, t) }

  /** What a path leads to. */
  ghost function Walked(t: Node, path: seq<Byte>): Option<Place>
    requires t.Dir?
  {
    if path == [] || path[0] != SLASH then None else Resolve(Root(t), Root(t), Components(path[1..]))
  }

  /** The walk stands at `q`, with `rest` of the path to go, and is on its way to
      `goal`; or the path has led nowhere. */
  ghost predicate OnTheWay(ins: seq<Inode>, bls: seq<Block>, t: Node, q: Place, rest: seq<Byte>, ok: bool,
                           goal: Option<Place>)
    requires t.Dir?
  {
    if ok then HeldAt(ins, bls, q) && Resolve(Root(t), q, Components(rest)) == goal else goal == None
  }

  /** Looks up the next piece of the path. */
  method WalkStep(ins: seq<Inode>, bls: seq<Block>, buf: array<Byte>, p: nat, node: nat,
                  ghost t: Node, ghost q: Place, ghost rest: seq<Byte>, ghost goal: Option<Place>)
    returns (p': nat, next: Option<nat>, ghost q': Place)
    requires t.Dir? && Image(ins, bls, Root(t)) && OnTheWay(ins, bls, t, q, rest, true, goal) && node == q.id
    requires p <= buf.Length && buf[p..] == rest + [0] && rest != [] && forall i :: 0 <= i < |rest| ==> rest[i] != 0
    modifies buf
    ensures p < p' <= p + |rest| && p' <= buf.Length && buf[p'..] == rest[p' - p..] + [0]
    ensures OnTheWay(ins, bls, t, q', rest[p' - p..], next.Some?, goal) && (next.Some? ==> next.value == q'.id)
  {
    hide Image, HeldAt, Components, Found;
    var name, inc := Cut(buf, p, rest);
    next := Lookup(ins, bls, node, name, Root(t), q);
    q' := q;
    if next.Some? {
      FoundHeld(ins, bls, Root(t), q, name);
      q' := Found(Root(t), q, name).value;
    }
    assert ([name] + Components(rest[inc..]))[1..] == Components(rest[inc..]);
    p' := p + inc;
  }

  /** Looks a path up in a packed image that is mounted at the root. */
  method VfsLookup(ins: seq<Inode>, bls: seq<Block>, path: seq<Byte>, ghost t: Node) returns (r: Option<nat>)
    requires t.Dir? && Image(ins, bls, Root(t)) && forall i :: 0 <= i < |path| ==> path[i] != 0
    ensures r == IdOf(Walked(t, path))
    ensures path == [] || path[0] != 47 ==> r == None
    ensures path == [47] ==> r == Some(1)
  {
    hide Image, HeldAt, Found;
    if |path| < 1 || path[0] != SLASH {
      return None;
    }
    ImageBlank(ins, bls, Root(t));
    var rest := path[1..];
    if rest == [] {
      return Some(ROOT_INODE);
    }
    var buf := new Byte[|rest| + 1](i => if 0 <= i < |rest| then rest[i] else 0);
    assert buf[0..] == rest[0..] + [0];
    assert rest[0..] == rest;
    ghost var q, goal := Root(t), Walked(t, path);
    var p := 0;
    r := Some(ROOT_INODE);
    while r.Some? && buf[p] != 0
      invariant p <= |rest| && buf.Length == |rest| + 1 && buf[p..] == rest[p..] + [0]
      invariant OnTheWay(ins, bls, t, q, rest[p..], r.Some?, goal) && (r.Some? ==> r.value == q.id)
      decreases |rest| - p
    {
      assert buf[p] == buf[p..][0];
      assert forall k :: 0 <= k <= |rest| - p ==> rest[p..][k..] == rest[p + k..];
      p, r, q := WalkStep(ins, bls, buf, p, r.value, t, q, rest[p..], goal);
    }
    assert r.Some? ==> rest[p..] == [] by {
      assert buf[p] == buf[p..][0];
    }
  }

  // ----- where paths lead

  /** The node at a position of the tree, if there is one. */
  ghost function Position(t: Node, path: seq<nat>): Option<Place> { At(ROOT_INODE, 0, t, path) }

  ghost function NamesAlong(t: Node, path: seq<nat>): seq<seq<Byte>>
    decreases |path|
  {
    if path == [] || !t.Dir? || path[0] >= |t.entries| then []
    else [t.entries[path[0]].name] + NamesAlong(t.entries[path[0]].node, path[1..])
  }

  /** On the way down no earlier sibling starts with the same byte. */
  ghost predicate Clear(t: Node, path: seq<nat>)
    decreases |path|
  {
    path == [] || !t.Dir? || path[0] >= |t.entries|
    || (FirstOfItsByte(t.entries, path[0]) && Clear(t.entries[path[0]].node, path[1..]))
  }

  lemma {:induction false} AtAppend(id: nat, start: nat, t: Node, a: seq<nat>, b: seq<nat>)
    requires At(id, start, t, a).Some?
    ensures
      var p := At(id, start, t, a).value;
      At(id, start, t, a + b) == At(p.id, p.start, p.node, b)
    decreases |a|
  {
    if a == [] {
      assert a + b == b;
    } else {
      var es, c := t.entries, a[0];
      assert (a + b)[0] == c && (a + b)[1..] == a[1..] + b;
      AtAppend(ChildId(id, es, c), ChildBlock(start, es, c), es[c].node, a[1..], b);
    }
  }

  lemma AtChild(t: Node, pp: seq<nat>, c: nat)
    requires Position(t, pp).Some? && Position(t, pp).value.node.Dir? && c < |Position(t, pp).value.node.entries|
    ensures Position(t, pp + [c]) == Some(Child(Position(t, pp).value, c))
  {
    AtAppend(ROOT_INODE, 0, t, pp, [c]);
    assert [c][1..] == [];
  }

  lemma PlacesDiffer(t: Node, a: seq<nat>, b: seq<nat>)
    requires Position(t, a).Some? && Position(t, b).Some? && a != b
    ensures Position(t, a) != Position(t, b)
  {
    NothingShared(ROOT_INODE, 0, t, a, b, Position(t, a).value.id);
  }

  lemma {:induction false} PackableAt(id: nat, start: nat, t: Node, path: seq<nat>)
    requires Packable(t) && At(id, start, t, path).Some?
    ensures Packable(At(id, start, t, path).value.node)
    decreases |path|
  {
    if path == [] {
    } else {
      var es, c := t.entries, path[0];
      PackableAt(ChildId(id, es, c), ChildBlock(start, es, c), es[c].node, path[1..]);
    }
  }

  /** Where a lookup leads: one level down, or, from an empty directory, to a child
      of the root. */
  lemma FoundAt(t: Node, pp: seq<nat>, name: seq<Byte>) returns (q: seq<nat>)
    requires t.Dir? && Position(t, pp).Some? && First(name) != 0
    requires Found(Root(t), Position(t, pp).value, name).Some?
    ensures Position(t, q) == Found(Root(t), Position(t, pp).value, name)
    ensures (|q| == |pp| + 1 && pp <= q) || |q| == 1
  {
    var p := Position(t, pp).value;
    var es := p.node.entries;
    if es == [] {
      var k := Match(t.entries, First(name), 0, PER_BLOCK);
      AtChild(t, [], k);
      q := [k];
      assert [] + [k] == [k];
    } else {
      var k := Match(es, First(name), 0, Slots(es));
      AtChild(t, pp, k);
      q := pp + [k];
    }
  }

  /** Where looking up several names leads. */
  lemma {:induction false} Reach(t: Node, pp: seq<nat>, names: seq<seq<Byte>>) returns (q: seq<nat>)
    requires t.Dir? && Position(t, pp).Some? && forall i :: 0 <= i < |names| ==> First(names[i]) != 0
    requires Resolve(Root(t), Position(t, pp).value, names).Some?
    ensures Position(t, q) == Resolve(Root(t), Position(t, pp).value, names)
    ensures (|q| == |pp| + |names| && pp <= q) || |q| <= |names|
    decreases |names|
  {
    if names == [] {
      q := pp;
    } else {
      var mid := FoundAt(t, pp, names[0]);
      q := Reach(t, mid, names[1..]);
    }
  }

  ghost predicate GoodNames(names: seq<seq<Byte>>) {
    forall i :: 0 <= i < |names| ==> IsName(names[i])
  }

  /** A wrong turn is never made good. */
  lemma WrongTurn(t: Node, pre: seq<nat>, path: seq<nat>, k: nat, names: seq<seq<Byte>>)
    requires t.Dir? && path != [] && k != path[0] && |names| < |path|
    requires Position(t, pre + [k]).Some? && Position(t, pre + path).Some?
    requires forall i :: 0 <= i < |names| ==> First(names[i]) != 0
    ensures Resolve(Root(t), Position(t, pre + [k]).value, names) != Position(t, pre + path)
  {
    if Resolve(Root(t), Position(t, pre + [k]).value, names).Some? {
      var q := Reach(t, pre + [k], names);
      assert (pre + path)[|pre|] == path[0] && (pre + [k])[|pre|] == k;
      PlacesDiffer(t, q, pre + path);
    }
  }

  lemma {:induction false} NamesLength(id: nat, start: nat, t: Node, path: seq<nat>)
    requires At(id, start, t, path).Some?
    ensures |NamesAlong(t, path)| == |path|
    decreases |path|
  {
    if path == [] {
    } else {
      var es, c := t.entries, path[0];
      NamesLength(ChildId(id, es, c), ChildBlock(start, es, c), es[c].node, path[1..]);
    }
  }

  /** Looking up the names on the way to a node arrives there exactly when, at every
      level, no earlier sibling starts with the same byte. */
  lemma {:induction false} ArrivesIff(t: Node, pre: seq<nat>, path: seq<nat>)
    requires t.Dir? && Packable(t) && Position(t, pre).Some? && Position(t, pre + path).Some?
    requires GoodNames(NamesAlong(Position(t, pre).value.node, path))
    ensures
      var p := Position(t, pre).value;
      Resolve(Root(t), p, NamesAlong(p.node, path)) == Position(t, pre + path) <==> Clear(p.node, path)
    decreases |path|
  {
    hide Packable, Found, FirstOfItsByte;
    var p := Position(t, pre).value;
    if path == [] {
      assert pre + path == pre;
    } else {
      var c, names := path[0], NamesAlong(p.node, path);
      AtAppend(ROOT_INODE, 0, t, pre, path);
      NamesLength(p.id, p.start, p.node, path);
      PackableAt(ROOT_INODE, 0, t, pre);
      var k := FindsSome(Root(t), p, c);
      AtChild(t, pre, k);
      AtChild(t, pre, c);
      if k == c {
        assert pre + [c] + path[1..] == pre + path;
        assert names[1..] == NamesAlong(p.node.entries[c].node, path[1..]);
        ArrivesIff(t, pre + [c], path[1..]);
      } else {
        assert forall i :: 0 <= i < |names[1..]| ==> IsName(names[1..][i]);
        WrongTurn(t, pre, path, k, names[1..]);
      }
    }
  }

  /** File names never hold a slash. */
  ghost predicate Slashless(names: seq<seq<Byte>>) {
    forall i, j :: 0 <= i < |names| && 0 <= j < |names[i]| ==> names[i][j] != SLASH
  }

  lemma {:induction false} NamesPacked(id: nat, start: nat, t: Node, path: seq<nat>)
    requires Packable(t) && At(id, start, t, path).Some?
    ensures forall i :: 0 <= i < |NamesAlong(t, path)| ==> GoodName(NamesAlong(t, path)[i])
    decreases |path|
  {
    hide GoodName;
    if path == [] {
    } else {
      var es, c := t.entries, path[0];
      NamesPacked(ChildId(id, es, c), ChildBlock(start, es, c), es[c].node, path[1..]);
    }
  }

  lemma NamesAreGood(t: Node, path: seq<nat>)
    requires Packable(t) && Position(t, path).Some? && Slashless(NamesAlong(t, path))
    ensures GoodNames(NamesAlong(t, path))
  {
    hide At, Packable, NamesAlong;
    NamesPacked(ROOT_INODE, 0, t, path);
    var names := NamesAlong(t, path);
    forall i | 0 <= i < |names| ensures IsName(names[i]) {
      assert GoodName(names[i]);
    }
  }

  lemma {:induction false} JoinNonZero(names: seq<seq<Byte>>)
    requires forall i :: 0 <= i < |names| ==> GoodName(names[i])
    ensures forall k :: 0 <= k < |Join(names)| ==> Join(names)[k] != 0
  {
    if names == [] {
    } else {
      assert GoodName(names[0]);
      JoinNonZero(names[1..]);
    }
  }

  /** The path to a node, from the root. */
  ghost function PathTo(t: Node, path: seq<nat>): seq<Byte> { [SLASH] + Join(NamesAlong(t, path)) }

  lemma RootPlace(t: Node)
    ensures Position(t, []) == Some(Root(t))
  {
  }

  /** A path leads to the node it was made for exactly when the way is clear. */
  lemma PathArrivesIff(t: Node, path: seq<nat>)
    requires t.Dir? && Packable(t) && Position(t, path).Some? && Slashless(NamesAlong(t, path))
    ensures Walked(t, PathTo(t, path)) == Position(t, path) <==> Clear(t, path)
  {
    hide Packable, NamesAlong, Clear, At, Join, Components, Resolve;
    NamesAreGood(t, path);
    RootPlace(t);
    ComponentsOfJoin(NamesAlong(t, path));
    assert PathTo(t, path)[1..] == Join(NamesAlong(t, path));
    assert [] + path == path;
    ArrivesIff(t, [], path);
  }

  /** Opening a file of a packed image by its path and reading it gives the file's
      bytes. */
  method OpenFile(ins: seq<Inode>, bls: seq<Block>, ghost t: Node, name: seq<Byte>, count: nat, ghost path: seq<nat>)
    returns (r: Option<seq<Byte>>)
    requires t.Dir? && Image(ins, bls, Root(t)) && count < WORD
    requires Position(t, path).Some? && Position(t, path).value.node.File?
    requires Slashless(NamesAlong(t, path)) && name == PathTo(t, path) && Clear(t, path)
    ensures
      var data := Position(t, path).value.node.data;
      r == Some(if count < |data| then data[..count] else data)
  {
    hide Encodes, Packable, NamesAlong, Clear, Join, Components, Resolve, SumInodes, SumBlocks;
    NamesPacked(ROOT_INODE, 0, t, path);
    JoinNonZero(NamesAlong(t, path));
    var id := VfsLookup(ins, bls, name, t);
    PathArrivesIff(t, path);
    ghost var p := Position(t, path).value;
    EncodedAt(ins, bls, ROOT_INODE, 0, t, path);
    EncodesBounds(ins, bls, p.id, p.start, p.node);
    PackableAt(ROOT_INODE, 0, t, path);
    OwnedInside(ROOT_INODE, 0, t, path, p.id);
    r := Read(ins, bls, id.value, count, p.start, p.node);
  }
}
