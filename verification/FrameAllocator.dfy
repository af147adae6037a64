/** Bits packed most significant first into 32-bit words. */
module Bitmap {

  lemma SmallShift(x: nat)
    requires x < 32
    ensures x as bv32 < 32 && (x as bv32) as nat == x
  {
  }

  function Shift(j: nat): (b: bv32)
    requires j < 32
    ensures b < 32 && b as nat == 31 - j
  {
    SmallShift(31 - j);
    (31 - j) as bv32
  }

  predicate BitAt(w: bv32, b: bv32)
    requires b < 32
  {
    (w >> b) & 1 == 1
  }

  predicate BitOf(w: bv32, j: nat)
    requires j < 32
  {
    BitAt(w, Shift(j))
  }

  function Flip(w: bv32, j: nat): bv32
    requires j < 32
  {
    w ^ (1 << Shift(j))
  }

  function BitsOf(ws: seq<bv32>): (bits: seq<bool>)
    ensures |bits| == 32 * |ws|
    ensures forall i :: 0 <= i < |bits| ==> bits[i] == BitOf(ws[i / 32], i % 32)
  {
    seq(32 * |ws|, i requires 0 <= i < 32 * |ws| => BitOf(ws[i / 32], i % 32))
  }

  lemma FlipAt(w: bv32, a: bv32, b: bv32)
    requires a < 32 && b < 32
    ensures BitAt(w ^ (1 << a), b) == (BitAt(w, b) != (a == b))
  {
  }

  lemma ShiftsDiffer(j: nat, k: nat)
    requires j < 32 && k < 32
    ensures Shift(j) == Shift(k) <==> j == k
  {
    hide Shift;
    assert Shift(j) as nat == 31 - j && Shift(k) as nat == 31 - k;
  }

  /** Exclusive-or with a one-bit mask flips that bit and no other. */
  lemma FlipOne(w: bv32, j: nat, k: nat)
    requires j < 32 && k < 32
    ensures BitOf(Flip(w, j), k) == (BitOf(w, k) != (j == k))
  {
    hide Shift, BitAt;
    ShiftsDiffer(j, k);
    FlipAt(w, Shift(j), Shift(k));
  }

  lemma ZeroWord(j: nat)
    requires j < 32
    ensures !BitOf(0, j)
  {
  }

  lemma WordBit(ws: seq<bv32>, i: nat, j: nat)
    requires i < |ws| && j < 32
    ensures BitsOf(ws)[32 * i + j] == BitOf(ws[i], j)
    ensures ws[i] == 0 ==> !BitsOf(ws)[32 * i + j]
  {
    hide BitOf;
    assert (32 * i + j) / 32 == i && (32 * i + j) % 32 == j;
    ZeroWord(j);
  }

  lemma FlipInWord(ws: seq<bv32>, i: nat)
    requires i < 32 * |ws|
    ensures BitsOf(ws[i / 32 := Flip(ws[i / 32], i % 32)]) == BitsOf(ws)[i := !BitsOf(ws)[i]]
  {
    hide BitOf, Flip;
    var vs := ws[i / 32 := Flip(ws[i / 32], i % 32)];
    forall k | 0 <= k < 32 * |ws|
      ensures BitsOf(vs)[k] == BitsOf(ws)[i := !BitsOf(ws)[i]][k]
    {
      FlipOne(ws[i / 32], i % 32, k % 32);
      assert k / 32 == i / 32 && k % 32 == i % 32 ==> k == i;
    }
  }
}

/** The page frame allocator: a packed bitmap over the frames of a region list. */
module FrameAllocator {
  import opened Wrappers
  import opened Bitmap
  import opened FrameSpec

  class FrameAllocator {
    const words: array<bv32>
    const len: nat
    const regions: seq<Region>

    /** The bitmap may hold anything, also past `len`; sizes are such that no
        32-bit product below overflows. */
    ghost predicate Valid()
      reads words
    {
      && WellFormed(regions)
      && len >= 1 && |Frames(regions)| == len
      && words.Length == (len - 1) / 32 + 1
      && 32 * words.Length * FOUR_KB < WORD
    }

    /** Takes over a bitmap of any content for a well-formed region list. */
    constructor (words: array<bv32>, len: nat, regions: seq<Region>)
      requires WellFormed(regions) && len >= 1 && |Frames(regions)| == len
      requires words.Length == (len - 1) / 32 + 1 && 32 * words.Length * FOUR_KB < WORD
      ensures Valid() && this.words == words && this.len == len && this.regions == regions
    {
      this.words, this.len, this.regions := words, len, regions;
    }

    ghost function Bits(): seq<bool>
      reads words
    {
      BitsOf(words[..])
    }

    method ToggleBit(idx: nat)
      requires idx < 32 * words.Length
      modifies words
      ensures Bits() == old(Bits())[idx := !old(Bits())[idx]]
    {
      FlipInWord(words[..], idx);
      words[idx / 32] := Flip(words[idx / 32], idx % 32);
      assert words[..] == old(words[..])[idx / 32 := Flip(old(words[idx / 32]), idx % 32)];
    }

    method ToggleBits(idx: nat, num: nat)
      requires idx + num <= 32 * words.Length
      modifies words
      ensures Bits() == Toggled(old(Bits()), idx, num)
    {
      var i := idx;
      while i < idx + num
        invariant idx <= i <= idx + num
        invariant Bits() == Toggled(old(Bits()), idx, i - idx)
      {
        ToggleBit(i);
        i := i + 1;
      }
    }

    /** The address of the frame behind a bit, or 0 for a bit without a frame. */
    method PaddrForIdx(idx: nat) returns (paddr: nat)
      requires Valid()
      ensures paddr == if idx < len then Frames(regions)[idx] else 0
    {
      hide Frames;
      var i, current, offset := 0, 0, idx * FOUR_KB;
      ghost var c: nat := 0;
      SuffixStart(regions);
      while i < |regions|
        invariant i <= |regions| && Suffix(regions, i, c) && current == FOUR_KB * c && c <= idx
      {
        SuffixStep(regions, i, c);
        assert regions[i].len == FOUR_KB * regions[i].Count();
        if current + regions[i].len <= offset {
          current := current + regions[i].len;
          c := c + regions[i].Count();
        } else {
          offset := offset - current;
          return regions[i].addr + offset;
        }
        i := i + 1;
      }
      SuffixEnd(regions, c);
      return 0;
    }

    /** The bit of a frame; `len` for an address above every region. */
    method IdxForPaddr(paddr: nat) returns (idx: nat)
      requires Valid()
      ensures forall k :: 0 <= k < len && Frames(regions)[k] == paddr ==> idx == k
      ensures (forall i :: 0 <= i < |regions| ==> regions[i].addr + regions[i].len <= paddr) ==> idx == len
      ensures idx == IndexFor(regions, paddr, 0, len)
    {
      hide Frames;
      var i: nat, offset: nat := 0, 0;
      assert regions[0..] == regions;
      while i < |regions|
        invariant i <= |regions|
        invariant IndexFor(regions, paddr, 0, len) == IndexFor(regions[i..], paddr, offset, len)
      {
        assert regions[i..][0] == regions[i] && regions[i..][1..] == regions[i + 1..];
        if paddr < regions[i].addr + regions[i].len {
          offset := (offset + paddr - regions[i].addr) % WORD;
          idx := offset / FOUR_KB;
          FrameIndex(paddr);
          return;
        } else {
          offset := offset + regions[i].len;
        }
        i := i + 1;
      }
      idx := len;
      FrameIndex(paddr);
    }

    /** For a frame the index is the frame's bit, above every region it is `len`. */
    lemma FrameIndex(paddr: nat)
      requires Valid()
      ensures forall k :: 0 <= k < len && Frames(regions)[k] == paddr ==> IndexFor(regions, paddr, 0, len) == k
      ensures (forall i :: 0 <= i < |regions| ==> regions[i].addr + regions[i].len <= paddr) ==>
                IndexFor(regions, paddr, 0, len) == len
    {
      hide Frames, WellFormed;
      forall k | 0 <= k < len && Frames(regions)[k] == paddr ensures IndexFor(regions, paddr, 0, len) == k {
        IndexOfFrame(regions, k, 0, len);
      }
      if forall i :: 0 <= i < |regions| ==> regions[i].addr + regions[i].len <= paddr {
        IndexAbove(regions, paddr, 0, len);
      }
    }

    method FitsInOneEntry(idx: nat, pfs: nat) returns (fits: bool)
      requires Valid() && pfs >= 1
      ensures fits <==> OneRegion(regions, idx, pfs)
    {
      hide Frames, OneRegion;
      var i, current, offset := 0, 0, idx * FOUR_KB;
      ghost var c: nat := 0;
      assert regions[0..] == regions;
      while i < |regions|
        invariant i <= |regions| && current == FOUR_KB * c && c <= idx
        invariant OneRegion(regions, idx, pfs) <==> OneRegion(regions[i..], idx - c, pfs)
      {
        var rest := regions[i..];
        assert rest[1..] == regions[i + 1..];
        assert regions[i].len == FOUR_KB * rest[0].Count();
        if current + regions[i].len <= offset {
          OneRegionTail(rest, idx - c, pfs);
          current := current + regions[i].len;
          c := c + rest[0].Count();
        } else {
          OneRegionHead(rest, idx - c, pfs);
          offset := offset - current;
          return offset + pfs * FOUR_KB <= regions[i].len;
        }
        i := i + 1;
      }
      NoRegion(idx - c, pfs);
      return false;
    }
  
    /** Allocates `num` contiguous frames and returns the address of the first, or
        0 when the scan finds none. */
    method Allocate(num: nat) returns (paddr: nat)
      requires Valid()
      modifies words
      ensures
        var r := Scan(old(Bits()), regions, num, 0, 0);
        && (r == None ==> paddr == 0 && Bits() == old(Bits()))
        && (r.Some? ==> num >= 1 && r.value < len && Good(old(Bits()), regions, num, r.value)
                        && paddr == Frames(regions)[r.value] && Bits() == Toggled(old(Bits()), r.value, num))
    {
      hide Frames, Scan, Good, OneRegion, BitsOf, BitOf, WellFormed, Toggled;
      ghost var bits := Bits();
      ScanSound(bits, regions, num, 0, 0);
      var n := (len - 1) / 32 + 1;
      var found: nat, idx: nat := 0, 0;
      var i := 0;
      while i < n
        invariant i <= n && words[..] == old(words[..])
        invariant Scanned(bits, num, 32 * i, found, idx)
      {
        var cell := words[i];
        if cell != 0 {
          var j := 0;
          while j < 32
            invariant j <= 32 && words[..] == old(words[..])
            invariant Scanned(bits, num, 32 * i + j, found, idx)
          {
            WordBit(words[..], i, j);
            ScanStep(bits, regions, num, 32 * i + j, found);
            if BitOf(cell, j) {
              if found == 0 {
                idx := 32 * i + j;
              }
              found := found + 1;
              if found == num {
                var fits := FitsInOneEntry(idx, num);
                if fits {
                  ToggleBits(idx, num);
                  paddr := PaddrForIdx(idx);
                  return;
                } else {
                  found := 0;
                }
              }
            } else {
              found := 0;
            }
            j := j + 1;
          }
        } else {
          forall k | 32 * i <= k < 32 * i + 32 ensures !bits[k] {
            WordBit(words[..], i, k - 32 * i);
          }
          SkipCleared(bits, regions, num, 32 * i, found, 32 * i + 32);
          found := 0;
        }
        i := i + 1;
      }
      ScanEnd(bits, regions, num, found);
      return 0;
    }

    /** The loops have reached bit `pos` with `found` free bits from `idx` on. */
    ghost predicate Scanned(bits: seq<bool>, num: nat, pos: nat, found: nat, idx: nat)
      reads words
    {
      && found <= pos <= |bits|
      && (num >= 1 ==> found < num)
      && (found > 0 ==> idx == pos - found)
      && Scan(bits, regions, num, 0, 0) == Scan(bits, regions, num, pos, found)
    }
  
    ghost function FreeFrames(): set<nat>
      reads words
    {
      FreeSet(Bits(), regions)
    }

    /** The bit behind `paddr` is `k`, and the frame is in use. */
    ghost predicate Live(paddr: nat, k: nat)
      reads words
    {
      && k < len && |Frames(regions)| == len && words.Length * 32 >= len
      && Frames(regions)[k] == paddr
      && !Bits()[k]
    }

    /** Frees an address: its bit is flipped, unless the address lies above every region.
        The free frames gain exactly this frame if and only if it is one and in use.
        The bit must lie in the bitmap, which it does for every frame. */
    method Free(paddr: nat)
      requires Valid()
      requires IndexFor(regions, paddr, 0, len) == len || IndexFor(regions, paddr, 0, len) < 32 * words.Length
      modifies words
      ensures Bits() == FreedBits(old(Bits()), IndexFor(regions, paddr, 0, len), len)
      ensures FreeFrames() == old(FreeFrames()) + {paddr} <==>
              paddr in FrameSet(regions) && paddr !in old(FreeFrames())
    {
      hide Frames, BitsOf, FreeSet, FrameSet, IndexFor;
      FreesIff(Bits(), regions, paddr, len);
      var idx := IdxForPaddr(paddr);
      if idx != len {
        ToggleBit(idx);
      }
    }

    lemma LiveIndex(paddr: nat, k: nat)
      requires Valid() && Live(paddr, k)
      ensures IndexFor(regions, paddr, 0, len) == k < 32 * words.Length
      ensures paddr in FrameSet(regions) && paddr !in FreeFrames()
    {
      IndexOfFrame(regions, k, 0, len);
      hide Frames;
      ClearedBit(Bits(), regions, k);
      assert Bits()[k := false] == Bits();
    }

    /** Frees a run of frames: their bits are flipped, and exactly they become free if
        and only if all of them were in use. */
    method FreeCont(paddr: nat, n: nat, ghost a: nat)
      requires Valid() && FrameRun(regions, a, n, paddr)
      modifies words
      ensures Bits() == Toggled(old(Bits()), a, n)
      ensures FreeFrames() == old(FreeFrames()) + Run(paddr, n) <==> InUse(old(Bits()), a, n)
    {
      hide Frames, BitsOf, FreeSet, Run, WellFormed, Toggled, IndexFor, InUse;
      ghost var bits := Bits();
      ToggleNone(bits, a);
      var i := 0;
      while i < n
        invariant i <= n
        invariant Bits() == Toggled(old(Bits()), a, i)
      {
        assert Frames(regions)[a + i] == NthFrame(paddr, i);
        ToggleFree(bits, a, i);
        IndexOfFrame(regions, a + i, 0, len);
        Free(paddr + i * FOUR_KB);
        i := i + 1;
      }
      RunFreesIff(bits, regions, a, n, paddr);
    }

    /** Giving back what was just allocated restores the bitmap, bit for bit. */
    method AllocateAndFree(n: nat)
      requires Valid()
      modifies words
      ensures Bits() == old(Bits())
    {
      hide Frames, BitsOf, FreeSet, Scan, Good, OneRegion;
      ghost var bits, r := Bits(), Scan(Bits(), regions, n, 0, 0);
      ScanSound(bits, regions, n, 0, 0);
      if r.Some? {
        AllocationFrames(bits, regions, n);
        GoodBits(bits, regions, n, r.value);
        ToggledTwice(bits, r.value, n);
      }
      var paddr := Allocate(n);
      if paddr != 0 {
        FreeCont(paddr, n, r.value);
      }
    }
  }
}
