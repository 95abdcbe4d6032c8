/**
 The wrapper that returns datatype handles to the caller (type_get_contents): the native
 call packs the handles it returns into the caller's array, and the wrapper widens the
 whole array, up to the capacity the caller declared.
 */
module TypeContents {
  import opened HandleWords
  import opened HandleAdapters

  /** Memory after the wrapper, when the native call wrote `ws` and returned `ret`. */
  function AfterContents(s: seq<Int32>, base: nat, capacity: int, ws: seq<Int32>, ret: int): (r: seq<Int32>)
    requires Fits(s, base, capacity) && |ws| <= if capacity <= 0 then 0 else capacity
    ensures |r| == |s|
  {
    var written := WithWords(s, base, ws);
    if ret == MPI_SUCCESS then Expanded(written, base, capacity) else written
  }

  method WrapTypeGetContents(mem: array<Int32>, base: nat, capacity: int, reply: HandleReply) returns (ret: int)
    requires Fits(mem[..], base, capacity)
    requires |reply.handles| <= if capacity <= 0 then 0 else capacity
    modifies mem
    ensures ret == reply.ret
    ensures mem[..] == old(AfterContents(mem[..], base, capacity, reply.handles, ret))
  {
    NativeWrite(mem, base, reply.handles);
    ret := reply.ret;
    if ret == MPI_SUCCESS {
      ExpandInPlace(mem, base, capacity);
    }
  }

  /** On success the caller's first slots hold exactly the handles the native call returned. */
  lemma ReturnedHandles(s: seq<Int32>, base: nat, capacity: int, ws: seq<Int32>)
    requires Fits(s, base, capacity) && |ws| <= if capacity <= 0 then 0 else capacity
    ensures forall slot :: base <= slot < base + |ws| ==>
      HandleAt(AfterContents(s, base, capacity, ws, MPI_SUCCESS), slot) == ws[slot - base]
  {
    forall slot | base <= slot < base + |ws|
      ensures HandleAt(AfterContents(s, base, capacity, ws, MPI_SUCCESS), slot) == ws[slot - base]
    {
      ExpandedWords(WithWords(s, base, ws), base, capacity, slot);
      SignExtendedHandle(AfterContents(s, base, capacity, ws, MPI_SUCCESS), slot);
    }
  }

  /** Success or not, the wrapper touches nothing outside the capacity the caller declared. */
  lemma OutsideCapacityKept(s: seq<Int32>, base: nat, capacity: int, ws: seq<Int32>, ret: int)
    requires Fits(s, base, capacity) && |ws| <= if capacity <= 0 then 0 else capacity
    ensures forall k :: 0 <= k < |s| && !(2 * base <= k < 2 * (base + capacity)) ==>
      AfterContents(s, base, capacity, ws, ret)[k] == s[k]
  {
    ExpandedOutside(WithWords(s, base, ws), base, capacity);
  }

  /** A failed call leaves everything but the words the native call wrote. */
  lemma FailedCallRestoresNothing(s: seq<Int32>, base: nat, capacity: int, ws: seq<Int32>, ret: int, k: nat)
    requires Fits(s, base, capacity) && |ws| <= if capacity <= 0 then 0 else capacity
    requires ret != MPI_SUCCESS && k < |s|
    ensures AfterContents(s, base, capacity, ws, ret)[k] ==
      if 2 * base <= k < 2 * base + |ws| then ws[k - 2 * base] else s[k]
  {
  }

  /**
   A slot within the capacity but past the handles that were returned is overwritten with the
   sign extension of whatever word lay at its packed position. It keeps its handle exactly
   when that handle fits in 32 bits and already had the same low word there.
   */
  lemma UnreturnedSlotKeptIff(s: seq<Int32>, base: nat, capacity: int, ws: seq<Int32>, slot: nat)
    requires Fits(s, base, capacity) && |ws| <= if capacity <= 0 then 0 else capacity
    requires base + |ws| <= slot < base + capacity
    ensures HandleAt(AfterContents(s, base, capacity, ws, MPI_SUCCESS), slot) == s[base + slot]
    ensures SameSlot(AfterContents(s, base, capacity, ws, MPI_SUCCESS), s, slot) <==>
      FitsInt32(HandleAt(s, slot)) && s[base + slot] == s[2 * slot]
  {
    ExpandedWords(WithWords(s, base, ws), base, capacity, slot);
    SignExtendedHandle(AfterContents(s, base, capacity, ws, MPI_SUCCESS), slot);
    FittingHandleWords(s, slot);
  }
}
