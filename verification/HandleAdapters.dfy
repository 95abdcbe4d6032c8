/**
 In-place adapters between arrays of 64-bit facade handles and arrays of
 32-bit native handles (src/backends/mpich_wrappers.c and its Intel MPI and
 MS-MPI copies, for requests and for datatypes alike).

 Memory is one array of 32-bit words; a handle array is a base slot and a
 length in it, slot j being words 2j (low) and 2j+1 (high). The native view of
 the same array starts at the same word and packs one handle per word.
 */
module HandleAdapters {
  import opened HandleWords

  /** The handle array of length n at slot `base` lies inside the memory. */
  predicate Fits(s: seq<Int32>, base: nat, n: int) {
    2 * base <= |s| && (n <= 0 || 2 * (base + n) <= |s|)
  }

  /** The handle stored in a slot. */
  function HandleAt(s: seq<Int32>, slot: nat): Int64
    requires 2 * slot + 1 < |s|
  {
    Join(s[2 * slot], s[2 * slot + 1])
  }

  /** Memory with the 64-bit value of `w` stored in a slot. */
  function PutHandle(s: seq<Int32>, slot: nat, w: Int32): (r: seq<Int32>)
    requires 2 * slot + 1 < |s|
    ensures |r| == |s|
  {
    s[2 * slot := w][2 * slot + 1 := SignWord(w)]
  }

  /** What a native call ought to be given: the low word of every handle, in order. */
  function LowWords(s: seq<Int32>, base: nat, n: int): (r: seq<Int32>)
    requires Fits(s, base, n)
    ensures |r| == if n <= 0 then 0 else n
  {
    if n <= 0 then [] else seq<Int32>(n, i requires 0 <= i < n => LowWord(HandleAt(s, base + i)))
  }

  /** The first n words at slot `base`, as a native call sees them. */
  function NativeView(s: seq<Int32>, base: nat, n: int): (r: seq<Int32>)
    requires Fits(s, base, n)
    ensures |r| == if n <= 0 then 0 else n
  {
    if n <= 0 then [] else s[2 * base..2 * base + n]
  }

  /** Memory with the words `ws` written from slot `base` on, one after the other. */
  function WithWords(s: seq<Int32>, base: nat, ws: seq<Int32>): (r: seq<Int32>)
    requires 2 * base + |ws| <= |s|
    ensures |r| == |s|
  {
    s[..2 * base] + ws + s[2 * base + |ws|..]
  }

  /** Memory in which the slots from `base` on hold the handles `hs`, each in its own slot. */
  function WithHandles(s: seq<Int32>, base: nat, hs: seq<Int32>): (r: seq<Int32>)
    requires Fits(s, base, |hs|)
    ensures |r| == |s|
    decreases |hs|
  {
    if hs == [] then s else WithHandles(PutHandle(s, base, hs[0]), base + 1, hs[1..])
  }

  /** Memory after the forward scan: word i of the array is the old low word of slot i. */
  function Compressed(s: seq<Int32>, base: nat, n: int): (r: seq<Int32>)
    requires Fits(s, base, n)
    ensures |r| == |s|
  {
    seq(|s|, k requires 0 <= k < |s| =>
      if 2 * base <= k < 2 * base + n then s[2 * (k - base)] else s[k])
  }

  /** Memory after the rest of a backward scan that has reached entry i. */
  function ExpandedFrom(s: seq<Int32>, base: nat, i: int): (r: seq<Int32>)
    requires Fits(s, base, i + 1)
    ensures |r| == |s|
    decreases i
  {
    if i < 0 then s else ExpandedFrom(PutHandle(s, base + i, s[2 * base + i]), base, i - 1)
  }

  /** Memory after the whole backward scan. */
  function Expanded(s: seq<Int32>, base: nat, n: int): (r: seq<Int32>)
    requires Fits(s, base, n)
    ensures |r| == |s|
  {
    ExpandedFrom(s, base, n - 1)
  }

  // ---- Words and handles of a slot ----

  lemma LowWordAt(s: seq<Int32>, slot: nat)
    requires 2 * slot + 1 < |s|
    ensures LowWord(HandleAt(s, slot)) == s[2 * slot]
    ensures HighWord(HandleAt(s, slot)) == s[2 * slot + 1]
  {
  }

  lemma SignExtendedHandle(s: seq<Int32>, slot: nat)
    requires 2 * slot + 1 < |s| && s[2 * slot + 1] == SignWord(s[2 * slot])
    ensures HandleAt(s, slot) == s[2 * slot]
  {
  }

  lemma FittingHandleWords(s: seq<Int32>, slot: nat)
    requires 2 * slot + 1 < |s|
    ensures FitsInt32(HandleAt(s, slot)) <==> s[2 * slot + 1] == SignWord(s[2 * slot])
    ensures FitsInt32(HandleAt(s, slot)) ==> HandleAt(s, slot) == s[2 * slot]
  {
  }

  lemma LowWordsAt(s: seq<Int32>, base: nat, n: int, i: nat)
    requires Fits(s, base, n) && i < n
    ensures LowWords(s, base, n)[i] == s[2 * (base + i)]
  {
    LowWordAt(s, base + i);
  }

  ghost predicate SameSlot(s: seq<Int32>, t: seq<Int32>, slot: nat)
    requires 2 * slot + 1 < |s| == |t|
  {
    s[2 * slot] == t[2 * slot] && s[2 * slot + 1] == t[2 * slot + 1]
  }

  /** Memories that agree on the slots of an array and outside of it are equal. */
  lemma SameSlotsSameMemory(s: seq<Int32>, t: seq<Int32>, base: nat, n: int)
    requires |s| == |t| && Fits(s, base, n)
    requires forall slot :: base <= slot < base + n ==> SameSlot(s, t, slot)
    requires forall k :: 0 <= k < |s| && !(2 * base <= k < 2 * (base + n)) ==> s[k] == t[k]
    ensures s == t
  {
    forall k | 0 <= k < |s|
      ensures s[k] == t[k]
    {
      if 2 * base <= k < 2 * (base + n) {
        assert SameSlot(s, t, k / 2);
      }
    }
  }

  // ---- What the two scans leave where ----

  lemma {:induction false} ExpandedElsewhere(s: seq<Int32>, base: nat, i: int, k: nat)
    requires Fits(s, base, i + 1) && k < |s|
    requires k < 2 * base || 2 * (base + i) + 1 < k
    ensures ExpandedFrom(s, base, i)[k] == s[k]
    decreases i
  {
    if i >= 0 {
      ExpandedElsewhere(PutHandle(s, base + i, s[2 * base + i]), base, i - 1, k);
    }
  }

  lemma {:induction false} ExpandedFromWords(s: seq<Int32>, base: nat, i: int, slot: nat)
    requires Fits(s, base, i + 1) && base <= slot <= base + i
    ensures ExpandedFrom(s, base, i)[2 * slot] == s[base + slot]
    ensures ExpandedFrom(s, base, i)[2 * slot + 1] == SignWord(s[base + slot])
    decreases i
  {
    var next := PutHandle(s, base + i, s[2 * base + i]);
    if slot == base + i {
      ExpandedElsewhere(next, base, i - 1, 2 * slot);
      ExpandedElsewhere(next, base, i - 1, 2 * slot + 1);
    } else {
      ExpandedFromWords(next, base, i - 1, slot);
    }
  }

  /** The backward scan puts into every slot the sign extension of the word packed for it. */
  lemma ExpandedWords(s: seq<Int32>, base: nat, n: int, slot: nat)
    requires Fits(s, base, n) && base <= slot < base + n
    ensures Expanded(s, base, n)[2 * slot] == s[base + slot]
    ensures Expanded(s, base, n)[2 * slot + 1] == SignWord(s[base + slot])
  {
    ExpandedFromWords(s, base, n - 1, slot);
  }

  lemma ExpandedOutside(s: seq<Int32>, base: nat, n: int)
    requires Fits(s, base, n)
    ensures forall k :: 0 <= k < |s| && !(2 * base <= k < 2 * (base + n)) ==> Expanded(s, base, n)[k] == s[k]
  {
    forall k | 0 <= k < |s| && !(2 * base <= k < 2 * (base + n))
      ensures Expanded(s, base, n)[k] == s[k]
    {
      ExpandedElsewhere(s, base, n - 1, k);
    }
  }

  lemma {:induction false} WithHandlesWords(s: seq<Int32>, base: nat, hs: seq<Int32>, slot: nat)
    requires Fits(s, base, |hs|) && 2 * slot + 1 < |s|
    ensures base <= slot < base + |hs| ==>
      WithHandles(s, base, hs)[2 * slot] == hs[slot - base] && WithHandles(s, base, hs)[2 * slot + 1] == SignWord(hs[slot - base])
    ensures !(base <= slot < base + |hs|) ==> SameSlot(WithHandles(s, base, hs), s, slot)
    decreases |hs|
  {
    if hs != [] {
      WithHandlesWords(PutHandle(s, base, hs[0]), base + 1, hs[1..], slot);
    }
  }

  lemma {:induction false} WithHandlesOutside(s: seq<Int32>, base: nat, hs: seq<Int32>)
    requires Fits(s, base, |hs|)
    ensures forall k :: 0 <= k < |s| && !(2 * base <= k < 2 * (base + |hs|)) ==> WithHandles(s, base, hs)[k] == s[k]
    decreases |hs|
  {
    if hs != [] {
      WithHandlesOutside(PutHandle(s, base, hs[0]), base + 1, hs[1..]);
    }
  }

  /** What the final memory means to the caller: slot by slot, and word by word elsewhere. */
  lemma WithHandlesMeaning(s: seq<Int32>, base: nat, hs: seq<Int32>)
    requires Fits(s, base, |hs|)
    ensures forall j :: base <= j < base + |hs| ==> HandleAt(WithHandles(s, base, hs), j) == hs[j - base]
    ensures forall k :: 0 <= k < |s| && !(2 * base <= k < 2 * (base + |hs|)) ==> WithHandles(s, base, hs)[k] == s[k]
  {
    forall j | base <= j < base + |hs|
      ensures HandleAt(WithHandles(s, base, hs), j) == hs[j - base]
    {
      WithHandlesWords(s, base, hs, j);
      SignExtendedHandle(WithHandles(s, base, hs), j);
    }
    WithHandlesOutside(s, base, hs);
  }

  // ---- Loads, stores and the two scans ----

  function LoadHandle(mem: array<Int32>, slot: nat): (h: Int64)
    requires 2 * slot + 1 < mem.Length
    reads mem
    ensures LowWord(h) == mem[2 * slot] && HighWord(h) == mem[2 * slot + 1]
  {
    Join(mem[2 * slot], mem[2 * slot + 1])
  }

  method StoreHandle(mem: array<Int32>, slot: nat, h: Int64)
    requires 2 * slot + 1 < mem.Length
    modifies mem
    ensures mem[..] == old(mem[..])[2 * slot := LowWord(h)][2 * slot + 1 := HighWord(h)]
    ensures HandleAt(mem[..], slot) == h
  {
    mem[2 * slot], mem[2 * slot + 1] := LowWord(h), HighWord(h);
    JoinSplit(h, 0, 0);
  }

  /** The first entry needs no compressing: its low word is in place. */
  lemma FirstEntryStays(s: seq<Int32>, base: nat, n: int)
    requires Fits(s, base, n) && n <= 1
    ensures Compressed(s, base, n) == s
  {
  }

  /** One more entry: its low word has not been overwritten yet. */
  lemma CompressedStep(s: seq<Int32>, base: nat, i: nat)
    requires Fits(s, base, i + 1) && 0 < i
    ensures Compressed(s, base, i)[2 * (base + i)] == s[2 * (base + i)]
    ensures Compressed(s, base, i + 1) == Compressed(s, base, i)[2 * base + i := s[2 * (base + i)]]
  {
  }

  /** Forward scan; slot 0 is left alone because its low word is already in place. */
  method CompressInPlace(mem: array<Int32>, base: nat, n: int)
    requires Fits(mem[..], base, n)
    modifies mem
    ensures mem[..] == Compressed(old(mem[..]), base, n)
  {
    hide LowWord, LoadHandle, Compressed;
    ghost var was := mem[..];
    FirstEntryStays(was, base, if n < 1 then n else 1);
    var i := 1;
    while i < n
      invariant 1 <= i && (i <= n || i == 1)
      invariant mem[..] == Compressed(was, base, if n < i then n else i)
    {
      var low := LowWord(LoadHandle(mem, base + i));
      CompressedStep(was, base, i);
      mem[2 * base + i] := low;
      i := i + 1;
    }
  }

  /** Backward scan with sign extension. */
  method ExpandInPlace(mem: array<Int32>, base: nat, n: int)
    requires Fits(mem[..], base, n)
    modifies mem
    ensures mem[..] == Expanded(old(mem[..]), base, n)
  {
    var i := n - 1;
    while i >= 0
      invariant i < n && Fits(mem[..], base, i + 1)
      invariant ExpandedFrom(mem[..], base, i) == ExpandedFrom(old(mem[..]), base, n - 1)
    {
      var val := mem[2 * base + i];
      SignExtensionWords(val);
      StoreHandle(mem, base + i, val);
      i := i - 1;
    }
  }

  // ---- A native call between the scans ----

  const MPI_SUCCESS := 0

  /** What a native call does with a handle array: it returns a code and rewrites the words. */
  datatype HandleReply = HandleReply(ret: int, handles: seq<Int32>)

  type NativeHandleCall = seq<Int32> -> HandleReply

  /** A native call rewrites its array in place, so it cannot change how many words there are. */
  ghost predicate KeepsLength(native: NativeHandleCall) {
    forall ws :: |native(ws).handles| == |ws|
  }

  method NativeWrite(mem: array<Int32>, base: nat, ws: seq<Int32>)
    requires 2 * base + |ws| <= mem.Length
    modifies mem
    ensures mem[..] == WithWords(old(mem[..]), base, ws)
  {
    forall i | 0 <= i < |ws| {
      mem[2 * base + i] := ws[i];
    }
  }

  /** After the native call the packed words are its answers, and nothing outside the array has changed. */
  lemma WrittenWords(s: seq<Int32>, base: nat, n: int, ws: seq<Int32>, k: nat)
    requires Fits(s, base, n) && |ws| == (if n <= 0 then 0 else n) && k < |s|
    ensures var mid := WithWords(Compressed(s, base, n), base, ws);
      && (2 * base <= k < 2 * base + n ==> mid[k] == ws[k - 2 * base])
      && (!(2 * base <= k < 2 * base + n) ==> mid[k] == s[k])
  {
  }

  /** Expanding after the native call leaves its answers, sign-extended, in otherwise untouched memory. */
  lemma ExpandAfterNative(s: seq<Int32>, base: nat, n: int, ws: seq<Int32>)
    requires Fits(s, base, n) && |ws| == if n <= 0 then 0 else n
    ensures Expanded(WithWords(Compressed(s, base, n), base, ws), base, n) == WithHandles(s, base, ws)
  {
    var mid := WithWords(Compressed(s, base, n), base, ws);
    hide WithWords, Compressed, Expanded, WithHandles;
    forall slot | base <= slot < base + n
      ensures SameSlot(Expanded(mid, base, n), WithHandles(s, base, ws), slot)
    {
      WrittenWords(s, base, n, ws, base + slot);
      ExpandedWords(mid, base, n, slot);
      WithHandlesWords(s, base, ws, slot);
    }
    ExpandedOutside(mid, base, n);
    WithHandlesOutside(s, base, ws);
    forall k: nat | k < |s| && !(2 * base <= k < 2 * (base + n))
      ensures mid[k] == s[k]
    {
      WrittenWords(s, base, n, ws, k);
    }
    SameSlotsSameMemory(Expanded(mid, base, n), WithHandles(s, base, ws), base, n);
  }

  /** The forward scan puts exactly the low words where the native call looks. */
  lemma NativeSeesLowWords(s: seq<Int32>, base: nat, n: int)
    requires Fits(s, base, n)
    ensures NativeView(Compressed(s, base, n), base, n) == LowWords(s, base, n)
  {
    forall i | 0 <= i < |LowWords(s, base, n)|
      ensures NativeView(Compressed(s, base, n), base, n)[i] == LowWords(s, base, n)[i]
    {
      LowWordsAt(s, base, n, i);
    }
  }

  /**
   The request wrappers: the native call is given the low words, and afterwards every
   slot holds the sign extension of the native answer, whatever was in the high words.
   */
  method WrapHandles(mem: array<Int32>, base: nat, n: int, native: NativeHandleCall) returns (ret: int)
    requires Fits(mem[..], base, n)
    requires KeepsLength(native)
    modifies mem
    ensures ret == native(LowWords(old(mem[..]), base, n)).ret
    ensures mem[..] == WithHandles(old(mem[..]), base, native(LowWords(old(mem[..]), base, n)).handles)
  {
    ghost var was := mem[..];
    CompressInPlace(mem, base, n);
    NativeSeesLowWords(was, base, n);
    var reply := native(NativeView(mem[..], base, n));
    NativeWrite(mem, base, reply.handles);
    ExpandInPlace(mem, base, n);
    ExpandAfterNative(was, base, n, reply.handles);
    ret := reply.ret;
  }

  // ---- The round trip ----

  /** Compress then expand, around a native call that only reads. */
  function RoundTrip(s: seq<Int32>, base: nat, n: int): (r: seq<Int32>)
    requires Fits(s, base, n)
    ensures |r| == |s|
  {
    Expanded(Compressed(s, base, n), base, n)
  }

  /** Every handle of the array fits in 32 bits. */
  ghost predicate Canonical(s: seq<Int32>, base: nat, n: int)
    requires Fits(s, base, n)
  {
    forall j :: base <= j < base + n ==> FitsInt32(HandleAt(s, j))
  }

  lemma RoundTripWords(s: seq<Int32>, base: nat, n: int, slot: nat)
    requires Fits(s, base, n) && base <= slot < base + n
    ensures RoundTrip(s, base, n)[2 * slot] == s[2 * slot]
    ensures RoundTrip(s, base, n)[2 * slot + 1] == SignWord(s[2 * slot])
  {
    ExpandedWords(Compressed(s, base, n), base, n, slot);
  }

  lemma RoundTripOutside(s: seq<Int32>, base: nat, n: int)
    requires Fits(s, base, n)
    ensures forall k :: 0 <= k < |s| && !(2 * base <= k < 2 * (base + n)) ==> RoundTrip(s, base, n)[k] == s[k]
  {
    ExpandedOutside(Compressed(s, base, n), base, n);
  }

  /** The round trip sends every handle h of the array to the sign extension of its low 32 bits. */
  lemma RoundTripProjects(s: seq<Int32>, base: nat, n: int)
    requires Fits(s, base, n)
    ensures forall j :: base <= j < base + n ==> HandleAt(RoundTrip(s, base, n), j) == LowWord(HandleAt(s, j))
    ensures forall k :: 0 <= k < |s| && !(2 * base <= k < 2 * (base + n)) ==> RoundTrip(s, base, n)[k] == s[k]
  {
    forall j | base <= j < base + n
      ensures HandleAt(RoundTrip(s, base, n), j) == LowWord(HandleAt(s, j))
    {
      RoundTripWords(s, base, n, j);
      SignExtendedHandle(RoundTrip(s, base, n), j);
      LowWordAt(s, j);
    }
    RoundTripOutside(s, base, n);
  }

  lemma RoundTripIdempotent(s: seq<Int32>, base: nat, n: int)
    requires Fits(s, base, n)
    ensures RoundTrip(RoundTrip(s, base, n), base, n) == RoundTrip(s, base, n)
  {
    var once := RoundTrip(s, base, n);
    forall slot | base <= slot < base + n
      ensures SameSlot(RoundTrip(once, base, n), once, slot)
    {
      RoundTripWords(s, base, n, slot);
      RoundTripWords(once, base, n, slot);
    }
    RoundTripOutside(once, base, n);
    SameSlotsSameMemory(RoundTrip(once, base, n), once, base, n);
  }

  /** The round trip loses nothing exactly when every handle fits in a signed 32-bit int. */
  lemma RoundTripIdentityIff(s: seq<Int32>, base: nat, n: int)
    requires Fits(s, base, n)
    ensures RoundTrip(s, base, n) == s <==> Canonical(s, base, n)
  {
    forall slot | base <= slot < base + n
      ensures SameSlot(RoundTrip(s, base, n), s, slot) <==> FitsInt32(HandleAt(s, slot))
    {
      RoundTripWords(s, base, n, slot);
      FittingHandleWords(s, slot);
    }
    if Canonical(s, base, n) {
      RoundTripOutside(s, base, n);
      SameSlotsSameMemory(RoundTrip(s, base, n), s, base, n);
    }
  }

  /** A native call that still reads the array after it was restored sees every other word as a sign. */
  lemma LaterReadWord(s: seq<Int32>, base: nat, n: int, i: nat)
    requires Fits(s, base, n) && i < n
    ensures NativeView(RoundTrip(s, base, n), base, n)[i] ==
      if i % 2 == 0 then LowWords(s, base, n)[i / 2] else SignWord(LowWords(s, base, n)[i / 2])
  {
    var half := i / 2;
    assert i == 2 * half || i == 2 * half + 1;
    RoundTripWords(s, base, n, base + half);
    LowWordsAt(s, base, n, half);
  }

  /**
   A nonblocking call that reads the array only after the wrapper returned, and so after it was
   restored, still sees the types exactly when they repeat in that pattern.
   */
  lemma LaterReadRightIff(s: seq<Int32>, base: nat, n: int)
    requires Fits(s, base, n)
    ensures NativeView(RoundTrip(s, base, n), base, n) == LowWords(s, base, n) <==>
      forall i: nat :: i < n ==>
        LowWords(s, base, n)[i] == if i % 2 == 0 then LowWords(s, base, n)[i / 2] else SignWord(LowWords(s, base, n)[i / 2])
  {
    hide RoundTrip, LowWords, NativeView;
    forall i: nat | i < n
      ensures NativeView(RoundTrip(s, base, n), base, n)[i] ==
        if i % 2 == 0 then LowWords(s, base, n)[i / 2] else SignWord(LowWords(s, base, n)[i / 2])
    {
      LaterReadWord(s, base, n, i);
    }
  }
}
