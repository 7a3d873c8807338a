/** The inotify event flags of <sys/inotify.h>, as the wrapper names them,
    and what can be proved about them as 32-bit bit sets. */
module InotifyEvents {

  const IN_ACCESS: bv32        := 0x0000_0001  // file was accessed
  const IN_MODIFY: bv32        := 0x0000_0002  // file was modified
  const IN_ATTRIB: bv32        := 0x0000_0004  // metadata changed
  const IN_CLOSE_WRITE: bv32   := 0x0000_0008  // writable file closed
  const IN_CLOSE_NOWRITE: bv32 := 0x0000_0010  // unwritable file closed
  const IN_CLOSE: bv32         := IN_CLOSE_WRITE | IN_CLOSE_NOWRITE
  const IN_OPEN: bv32          := 0x0000_0020  // file was opened
  const IN_MOVED_FROM: bv32    := 0x0000_0040  // file moved out of a watched directory
  const IN_MOVED_TO: bv32      := 0x0000_0080  // file moved into a watched directory
  const IN_MOVE: bv32          := IN_MOVED_FROM | IN_MOVED_TO
  const IN_CREATE: bv32        := 0x0000_0100  // entry created in a watched directory
  const IN_DELETE: bv32        := 0x0000_0200  // entry deleted from a watched directory
  const IN_DELETE_SELF: bv32   := 0x0000_0400  // the watched object itself was deleted
  const IN_MOVE_SELF: bv32     := 0x0000_0800  // the watched object itself was moved
  const IN_UNMOUNT: bv32       := 0x0000_2000  // file system was unmounted
  const IN_Q_OVERFLOW: bv32    := 0x0000_4000  // event queue overflowed
  const IN_IGNORED: bv32       := 0x0000_8000  // watch was removed
  const IN_ONLYDIR: bv32       := 0x0100_0000  // only watch the path if it is a directory
  const IN_DONT_FOLLOW: bv32   := 0x0200_0000  // do not follow a symbolic link
  const IN_EXCL_UNLINK: bv32   := 0x0400_0000  // no events for unlinked children
  const IN_MASK_ADD: bv32      := 0x2000_0000  // add to an existing watch's mask
  const IN_ISDIR: bv32         := 0x4000_0000  // subject of the event is a directory
  const IN_ONESHOT: bv32       := 0x8000_0000  // remove the watch after one event
  const IN_ALL_EVENTS: bv32    :=
    IN_ACCESS | IN_MODIFY | IN_ATTRIB | IN_CLOSE_WRITE
    | IN_CLOSE_NOWRITE | IN_OPEN | IN_MOVED_FROM
    | IN_MOVED_TO | IN_CREATE | IN_DELETE
    | IN_DELETE_SELF | IN_MOVE_SELF

  /** The flags that are not defined in terms of other flags, in declaration order. */
  const Primitives: seq<bv32> := [
    IN_ACCESS, IN_MODIFY, IN_ATTRIB, IN_CLOSE_WRITE, IN_CLOSE_NOWRITE, IN_OPEN,
    IN_MOVED_FROM, IN_MOVED_TO, IN_CREATE, IN_DELETE, IN_DELETE_SELF, IN_MOVE_SELF,
    IN_UNMOUNT, IN_Q_OVERFLOW, IN_IGNORED, IN_ONLYDIR, IN_DONT_FOLLOW,
    IN_EXCL_UNLINK, IN_MASK_ADD, IN_ISDIR, IN_ONESHOT
  ]

  /** The flags that make up each composite. */
  const CloseParts: seq<bv32> := [IN_CLOSE_WRITE, IN_CLOSE_NOWRITE]
  const MoveParts: seq<bv32> := [IN_MOVED_FROM, IN_MOVED_TO]
  const AllEventsParts: seq<bv32> := Primitives[..12]

  /** x has exactly one bit set. */
  predicate SingleBit(x: bv32) {
    x != 0 && x & (x - 1) == 0
  }

  /** The bitwise OR of a list of flags. */
  function UnionOf(flags: seq<bv32>): bv32 {
    if flags == [] then 0 else flags[0] | UnionOf(flags[1..])
  }

  /** `Inotify#event?`: the mask has at least one bit of the event in common with it.
      The method touches no state of its object, so it is modelled here, beside the flags. */
  predicate IsEvent(mask: bv32, event: bv32): (b: bool)
    ensures b ==> mask != 0 && event != 0
    ensures event != 0 && mask & event == event ==> b
  {
    mask & event != 0
  }

  // The 21 primitive flags are checked in blocks of seven so that each proof stays small.

  lemma SingleBitsInBlock0()
    ensures forall i :: 0 <= i < 7 ==> SingleBit(Primitives[i])
  {
  }

  lemma SingleBitsInBlock1()
    ensures forall i :: 7 <= i < 14 ==> SingleBit(Primitives[i])
  {
  }

  lemma SingleBitsInBlock2()
    ensures forall i :: 14 <= i < 21 ==> SingleBit(Primitives[i])
  {
  }

  lemma PrimitivesAreSingleBits()
    ensures forall i :: 0 <= i < |Primitives| ==> SingleBit(Primitives[i])
  {
    SingleBitsInBlock0();
    SingleBitsInBlock1();
    SingleBitsInBlock2();
  }

  /** Two different single-bit values share no bit. */
  lemma SingleBitsDisjoint(a: bv32, b: bv32)
    requires SingleBit(a) && SingleBit(b) && a != b
    ensures a & b == 0
  {
  }

  lemma DistinctInBlocks0And0()
    ensures forall i, j :: 0 <= i < 7 && 0 <= j < 7 && i < j ==> Primitives[i] != Primitives[j]
  {
  }

  lemma DistinctInBlocks0And1()
    ensures forall i, j :: 0 <= i < 7 && 7 <= j < 14 && i < j ==> Primitives[i] != Primitives[j]
  {
  }

  lemma DistinctInBlocks0And2()
    ensures forall i, j :: 0 <= i < 7 && 14 <= j < 21 && i < j ==> Primitives[i] != Primitives[j]
  {
  }

  lemma DistinctInBlocks1And1()
    ensures forall i, j :: 7 <= i < 14 && 7 <= j < 14 && i < j ==> Primitives[i] != Primitives[j]
  {
  }

  lemma DistinctInBlocks1And2()
    ensures forall i, j :: 7 <= i < 14 && 14 <= j < 21 && i < j ==> Primitives[i] != Primitives[j]
  {
  }

  lemma DistinctInBlocks2And2()
    ensures forall i, j :: 14 <= i < 21 && 14 <= j < 21 && i < j ==> Primitives[i] != Primitives[j]
  {
  }

  /** No primitive flag is listed twice. */
  lemma PrimitivesDistinct()
    ensures forall i, j :: 0 <= i < j < |Primitives| ==> Primitives[i] != Primitives[j]
  {
    DistinctInBlocks0And0();
    DistinctInBlocks0And1();
    DistinctInBlocks0And2();
    DistinctInBlocks1And1();
    DistinctInBlocks1And2();
    DistinctInBlocks2And2();
  }

  /** Every primitive flag is one bit, and no two primitive flags share a bit. */
  lemma PrimitivesDisjoint()
    ensures forall i :: 0 <= i < |Primitives| ==> SingleBit(Primitives[i])
    ensures forall i, j :: 0 <= i < j < |Primitives| ==> Primitives[i] & Primitives[j] == 0
  {
    PrimitivesAreSingleBits();
    PrimitivesDistinct();
    forall i, j | 0 <= i < j < |Primitives|
      ensures Primitives[i] & Primitives[j] == 0
    {
      SingleBitsDisjoint(Primitives[i], Primitives[j]);
    }
  }

  /** Every flag in the list is contained in their union. */
  lemma {:induction false} UnionContainsParts(flags: seq<bv32>, i: int)
    requires 0 <= i < |flags|
    ensures flags[i] & UnionOf(flags) == flags[i]
    decreases |flags|
  {
    if 0 < i {
      UnionContainsParts(flags[1..], i - 1);
      assert flags[1..][i - 1] == flags[i];
    }
  }

  /** The union adds no bit of its own: a value that meets the union meets one of the parts. */
  lemma {:induction false} UnionHasNoNewBits(flags: seq<bv32>, x: bv32)
    requires IsEvent(UnionOf(flags), x)
    ensures exists i :: 0 <= i < |flags| && IsEvent(flags[i], x)
    decreases |flags|
  {
    if flags == [] {
      assert false;
    }
    if !IsEvent(flags[0], x) {
      UnionHasNoNewBits(flags[1..], x);
      var i :| 0 <= i < |flags| - 1 && IsEvent(flags[1..][i], x);
      assert flags[1..][i] == flags[i + 1];
    }
  }

  /** The composites are the unions of their parts, with the values the kernel header gives. */
  lemma {:induction false} CompositeValues()
    ensures IN_CLOSE == UnionOf(CloseParts) == 0x18
    ensures IN_MOVE == UnionOf(MoveParts) == 0xC0
    ensures IN_ALL_EVENTS == UnionOf(AllEventsParts) == 0xFFF
  {
    assert UnionOf(CloseParts[1..]) == IN_CLOSE_NOWRITE by { assert CloseParts[1..][1..] == []; }
    assert UnionOf(MoveParts[1..]) == IN_MOVED_TO by { assert MoveParts[1..][1..] == []; }
    var all := AllEventsParts;
    assert all == [0x1, 0x2, 0x4, 0x8, 0x10, 0x20, 0x40, 0x80, 0x100, 0x200, 0x400, 0x800];
    assert UnionOf(all[11..]) == 0x800 by { assert all[11..][1..] == []; }
    assert UnionOf(all[10..]) == 0xC00 by { assert all[10..][1..] == all[11..]; }
    assert UnionOf(all[9..]) == 0xE00 by { assert all[9..][1..] == all[10..]; }
    assert UnionOf(all[8..]) == 0xF00 by { assert all[8..][1..] == all[9..]; }
    assert UnionOf(all[7..]) == 0xF80 by { assert all[7..][1..] == all[8..]; }
    assert UnionOf(all[6..]) == 0xFC0 by { assert all[6..][1..] == all[7..]; }
    assert UnionOf(all[5..]) == 0xFE0 by { assert all[5..][1..] == all[6..]; }
    assert UnionOf(all[4..]) == 0xFF0 by { assert all[4..][1..] == all[5..]; }
    assert UnionOf(all[3..]) == 0xFF8 by { assert all[3..][1..] == all[4..]; }
    assert UnionOf(all[2..]) == 0xFFC by { assert all[2..][1..] == all[3..]; }
    assert UnionOf(all[1..]) == 0xFFE by { assert all[1..][1..] == all[2..]; }
  }

  /** Every single bit of a composite is one of the flags it is built from. */
  lemma CompositeBitsAreParts(x: bv32)
    requires SingleBit(x)
    ensures IsEvent(IN_CLOSE, x) ==> x in CloseParts
    ensures IsEvent(IN_MOVE, x) ==> x in MoveParts
    ensures IsEvent(IN_ALL_EVENTS, x) ==> x in AllEventsParts
  {
    CompositeValues();
    PrimitivesAreSingleBits();
    forall parts | parts in [CloseParts, MoveParts, AllEventsParts] && IsEvent(UnionOf(parts), x)
      ensures x in parts
    {
      UnionHasNoNewBits(parts, x);
      var i :| 0 <= i < |parts| && IsEvent(parts[i], x);
      assert SingleBit(parts[i]);
    }
  }

  /** The value with only bit k set. */
  function Bit(k: bv32): bv32
    requires k < 32
  {
    1 << k
  }

  /** Bit k is set in x. */
  predicate HasBit(x: bv32, k: bv32)
    requires k < 32
  {
    IsEvent(x, Bit(k))
  }

  lemma BitIsSingle(k: bv32)
    requires k < 32
    ensures SingleBit(Bit(k))
  {
  }

  /** A non-zero value whose bits below k are clear has a set bit at k or above. */
  lemma {:induction false} SetBitAtOrAbove(x: bv32, k: bv32)
    requires k < 32
    requires x != 0 && x & (Bit(k) - 1) == 0
    ensures exists j: bv32 :: k <= j < 32 && HasBit(x, j)
    decreases 32 - k
  {
    if !HasBit(x, k) {
      if k == 31 {
        assert false;
      }
      assert Bit(k + 1) - 1 == (Bit(k) - 1) | Bit(k);
      SetBitAtOrAbove(x, k + 1);
    }
  }

  lemma MeetsBoth(a: bv32, c: bv32, b: bv32)
    requires IsEvent(a & c, b)
    ensures IsEvent(a, b) && IsEvent(c, b)
  {
  }

  lemma SharedBitMeets(mask: bv32, event: bv32, b: bv32)
    requires SingleBit(b) && IsEvent(mask, b) && IsEvent(event, b)
    ensures IsEvent(mask, event)
  {
  }

  /** A bit that a mask and an event have in common, when they have one. */
  lemma CommonBit(mask: bv32, event: bv32) returns (k: bv32)
    requires IsEvent(mask, event)
    ensures k < 32 && HasBit(mask, k) && HasBit(event, k)
  {
    SetBitAtOrAbove(mask & event, 0);
    k :| k < 32 && HasBit(mask & event, k);
    MeetsBoth(mask, event, Bit(k));
  }

  /** `event?` holds exactly when some bit is set in both the mask and the event:
      one bit of a composite event suffices, not all of them. */
  lemma IsEventAnyBit(mask: bv32, event: bv32)
    ensures IsEvent(mask, event) <==> exists k: bv32 :: k < 32 && HasBit(mask, k) && HasBit(event, k)
  {
    if IsEvent(mask, event) {
      var k := CommonBit(mask, event);
    } else {
      forall k: bv32 | k < 32 && HasBit(mask, k) && HasBit(event, k)
        ensures false
      {
        BitIsSingle(k);
        SharedBitMeets(mask, event, Bit(k));
      }
    }
  }

  lemma IsEventSymmetric(a: bv32, b: bv32)
    ensures IsEvent(a, b) <==> IsEvent(b, a)
  {
  }

  lemma IsEventWider(mask: bv32, part: bv32, whole: bv32)
    requires part & whole == part && IsEvent(mask, part)
    ensures IsEvent(mask, whole)
  {
  }

  /** A mask that meets a composite meets one of its parts. */
  lemma MeetsSomePart(mask: bv32, parts: seq<bv32>)
    requires IsEvent(mask, UnionOf(parts))
    ensures exists i :: 0 <= i < |parts| && IsEvent(mask, parts[i])
  {
    IsEventSymmetric(mask, UnionOf(parts));
    UnionHasNoNewBits(parts, mask);
    var i :| 0 <= i < |parts| && IsEvent(parts[i], mask);
    IsEventSymmetric(mask, parts[i]);
  }

  /** A mask that meets one part of a composite meets the composite. */
  lemma PartMeetsUnion(mask: bv32, parts: seq<bv32>, i: int)
    requires 0 <= i < |parts| && IsEvent(mask, parts[i])
    ensures IsEvent(mask, UnionOf(parts))
  {
    UnionContainsParts(parts, i);
    IsEventWider(mask, parts[i], UnionOf(parts));
  }

  /** Testing for a composite is testing for any of its parts. */
  lemma IsEventUnion(mask: bv32, parts: seq<bv32>)
    ensures IsEvent(mask, UnionOf(parts)) <==> exists i :: 0 <= i < |parts| && IsEvent(mask, parts[i])
  {
    if IsEvent(mask, UnionOf(parts)) {
      MeetsSomePart(mask, parts);
    }
    if exists i :: 0 <= i < |parts| && IsEvent(mask, parts[i]) {
      var i :| 0 <= i < |parts| && IsEvent(mask, parts[i]);
      PartMeetsUnion(mask, parts, i);
    }
  }

  /** For a single flag, `event?` is membership of that flag in the mask. */
  lemma IsEventSingleFlag(mask: bv32, flag: bv32)
    requires SingleBit(flag)
    ensures IsEvent(mask, flag) <==> mask & flag == flag
  {
  }

  /** The wrapper's own usage: a watch mask of IN_CREATE | IN_MODIFY tests positive for
      each of the two and negative for IN_DELETE. */
  lemma CreateModifyExample()
    ensures IsEvent(IN_CREATE | IN_MODIFY, IN_CREATE)
    ensures IsEvent(IN_CREATE | IN_MODIFY, IN_MODIFY)
    ensures !IsEvent(IN_CREATE | IN_MODIFY, IN_DELETE)
    ensures IsEvent(IN_CLOSE_WRITE, IN_CLOSE) && IN_CLOSE_WRITE & IN_CLOSE != IN_CLOSE
  {
  }
}
