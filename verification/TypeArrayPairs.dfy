/**
 The wrappers that adapt two datatype arrays around one native call (alltoallw and the
 neighbour collectives). Both arrays live in the same memory, so that they may be
 disjoint, overlap in any way, or be one array passed twice; the native call only reads them.
 */
module TypeArrayPairs {
  import opened HandleWords
  import opened HandleAdapters

  /** The send array (slot `sb`, length n) and the receive array (slot `rb`, length m) lie inside the memory. */
  predicate FitBoth(s: seq<Int32>, sb: nat, n: int, rb: nat, m: int) {
    Fits(s, sb, n) && Fits(s, rb, m)
  }

  /** Memory as the native call finds it, both arrays compressed, send array first. */
  function CompressedPair(s: seq<Int32>, sb: nat, n: int, rb: nat, m: int): (r: seq<Int32>)
    requires FitBoth(s, sb, n, rb, m)
    ensures |r| == |s|
  {
    Compressed(Compressed(s, sb, n), rb, m)
  }

  /** Memory after both arrays were restored, send array first. */
  function AfterPair(s: seq<Int32>, sb: nat, n: int, rb: nat, m: int): (r: seq<Int32>)
    requires FitBoth(s, sb, n, rb, m)
    ensures |r| == |s|
  {
    Expanded(Expanded(CompressedPair(s, sb, n, rb, m), sb, n), rb, m)
  }

  method WrapTypePair(mem: array<Int32>, sb: nat, n: int, rb: nat, m: int, native: (seq<Int32>, seq<Int32>) -> int)
    returns (ret: int)
    requires FitBoth(mem[..], sb, n, rb, m)
    modifies mem
    ensures var seen := old(CompressedPair(mem[..], sb, n, rb, m));
            ret == native(NativeView(seen, sb, n), NativeView(seen, rb, m))
    ensures mem[..] == old(AfterPair(mem[..], sb, n, rb, m))
  {
    CompressInPlace(mem, sb, n);
    CompressInPlace(mem, rb, m);
    ret := native(NativeView(mem[..], sb, n), NativeView(mem[..], rb, m));
    ExpandInPlace(mem, sb, n);
    ExpandInPlace(mem, rb, m);
  }

  /** The native call is given the low words of both arrays. */
  ghost predicate SeenRight(s: seq<Int32>, sb: nat, n: int, rb: nat, m: int)
    requires FitBoth(s, sb, n, rb, m)
  {
    var seen := CompressedPair(s, sb, n, rb, m);
    NativeView(seen, sb, n) == LowWords(s, sb, n) && NativeView(seen, rb, m) == LowWords(s, rb, m)
  }

  /**
   What a caller of a routine with const type arrays may expect: the native call is
   given the low words of both arrays, and memory ends as it began.
   */
  ghost predicate Faithful(s: seq<Int32>, sb: nat, n: int, rb: nat, m: int)
    requires FitBoth(s, sb, n, rb, m)
  {
    SeenRight(s, sb, n, rb, m) && AfterPair(s, sb, n, rb, m) == s
  }

  predicate Disjoint(sb: nat, n: int, rb: nat, m: int) {
    n <= 0 || m <= 0 || sb + n <= rb || rb + m <= sb
  }

  /** The placements of two handle arrays under which the wrapper is faithful to every content. */
  predicate SafePlacement(sb: nat, n: int, rb: nat, m: int) {
    || Disjoint(sb, n, rb, m)
    || (sb <= rb && m == 1 && (rb == sb || n <= 2 * (rb - sb)))
    || (rb < sb && m <= 2 * (sb - rb) && (sb - rb == m - 1 || n <= 2))
  }

  /** An array whose packed words are the low words of its slots is seen right. */
  lemma ViewIsLowWords(s: seq<Int32>, seen: seq<Int32>, base: nat, n: int)
    requires |seen| == |s| && Fits(s, base, n)
    requires forall k :: 2 * base <= k < 2 * base + n ==> seen[k] == s[2 * (k - base)]
    ensures NativeView(seen, base, n) == LowWords(s, base, n)
  {
    forall i | 0 <= i < |LowWords(s, base, n)|
      ensures NativeView(seen, base, n)[i] == LowWords(s, base, n)[i]
    {
      LowWordsAt(s, base, n, i);
      assert seen[2 * base + i] == s[2 * (base + i)];
    }
  }

  // ---- Disjoint arrays ----

  /** Disjoint arrays: the native call sees exactly the low words of both, whatever the high words hold. */
  lemma DisjointViews(s: seq<Int32>, sb: nat, n: int, rb: nat, m: int)
    requires FitBoth(s, sb, n, rb, m) && Disjoint(sb, n, rb, m)
    ensures SeenRight(s, sb, n, rb, m)
  {
    ViewIsLowWords(s, CompressedPair(s, sb, n, rb, m), sb, n);
    ViewIsLowWords(s, CompressedPair(s, sb, n, rb, m), rb, m);
  }

  /** Disjoint arrays: every slot of either array ends as the sign extension of its low word, and nothing else changes. */
  lemma DisjointRestore(s: seq<Int32>, sb: nat, n: int, rb: nat, m: int)
    requires FitBoth(s, sb, n, rb, m) && Disjoint(sb, n, rb, m)
    ensures AfterPair(s, sb, n, rb, m) == RoundTrip(RoundTrip(s, sb, n), rb, m)
  {
    // Restoring the send array commutes with compressing the receive array.
    var one := Compressed(s, sb, n);
    var left := Expanded(Compressed(one, rb, m), sb, n);
    var right := Compressed(Expanded(one, sb, n), rb, m);
    forall slot | sb <= slot < sb + n
      ensures SameSlot(left, right, slot)
    {
      ExpandedWords(Compressed(one, rb, m), sb, n, slot);
      ExpandedWords(one, sb, n, slot);
    }
    ExpandedOutside(Compressed(one, rb, m), sb, n);
    ExpandedOutside(one, sb, n);
    SameSlotsSameMemory(left, right, sb, n);
  }

  /** After the wrapper returned, each of two disjoint arrays reads as after its own round trip. */
  lemma LaterReadsOfPair(s: seq<Int32>, sb: nat, n: int, rb: nat, m: int)
    requires FitBoth(s, sb, n, rb, m) && Disjoint(sb, n, rb, m)
    ensures NativeView(AfterPair(s, sb, n, rb, m), sb, n) == NativeView(RoundTrip(s, sb, n), sb, n)
    ensures NativeView(AfterPair(s, sb, n, rb, m), rb, m) == NativeView(RoundTrip(s, rb, m), rb, m)
  {
    DisjointRestore(s, sb, n, rb, m);
    hide AfterPair, RoundTrip;
    RoundTripOutside(s, sb, n);
    RoundTripOutside(RoundTrip(s, sb, n), rb, m);
    forall slot | rb <= slot < rb + m
      ensures SameSlot(RoundTrip(RoundTrip(s, sb, n), rb, m), RoundTrip(s, rb, m), slot)
    {
      RoundTripWords(s, rb, m, slot);
      RoundTripWords(RoundTrip(s, sb, n), rb, m, slot);
    }
    forall k | 2 * rb <= k < 2 * rb + m
      ensures RoundTrip(RoundTrip(s, sb, n), rb, m)[k] == RoundTrip(s, rb, m)[k]
    {
      assert SameSlot(RoundTrip(RoundTrip(s, sb, n), rb, m), RoundTrip(s, rb, m), k / 2);
    }
  }

  lemma DisjointIsFaithful(s: seq<Int32>, sb: nat, n: int, rb: nat, m: int)
    requires FitBoth(s, sb, n, rb, m) && Disjoint(sb, n, rb, m)
    requires Canonical(s, sb, n) && Canonical(s, rb, m)
    ensures Faithful(s, sb, n, rb, m)
  {
    DisjointViews(s, sb, n, rb, m);
    DisjointRestore(s, sb, n, rb, m);
    RoundTripIdentityIff(s, sb, n);
    RoundTripIdentityIff(s, rb, m);
  }

  // ---- One array passed twice ----

  lemma CompressedTwiceWord(s: seq<Int32>, base: nat, n: int, i: nat)
    requires Fits(s, base, n) && i < n
    ensures CompressedPair(s, base, n, base, n)[2 * base + i] == if 2 * i < n then s[2 * (base + 2 * i)] else s[2 * (base + i)]
  {
  }

  /** The double compress: entry i is the low word of handle 2i while 2i < n, of handle i afterwards. */
  lemma SameArrayView(s: seq<Int32>, base: nat, n: int, i: nat)
    requires Fits(s, base, n) && i < n
    ensures NativeView(CompressedPair(s, base, n, base, n), base, n)[i]
         == LowWord(HandleAt(s, if 2 * i < n then base + 2 * i else base + i))
  {
  }

  /** An array passed twice is still seen right iff, in its first half, handle 2i has the low word of handle i. */
  lemma SameArraySeenRightIff(s: seq<Int32>, base: nat, n: int)
    requires Fits(s, base, n)
    ensures SeenRight(s, base, n, base, n) <==>
      forall i: nat :: 2 * i < n ==> LowWords(s, base, n)[2 * i] == LowWords(s, base, n)[i]
  {
    var view := NativeView(CompressedPair(s, base, n, base, n), base, n);
    var low := LowWords(s, base, n);
    forall i: nat | i < n
      ensures view[i] == if 2 * i < n then low[2 * i] else low[i]
    {
      CompressedTwiceWord(s, base, n, i);
      LowWordsAt(s, base, n, if 2 * i < n then 2 * i else i);
    }
  }

  /** The low word that the double restore leaves in entry i of an array passed twice. */
  function RestoredTwice(s: seq<Int32>, base: nat, i: nat): Int32
    requires 2 * (base + i) < |s|
  {
    if i % 2 == 0 then s[2 * (base + i)] else SignWord(s[2 * (base + i - 1)])
  }

  lemma SameArrayWords(s: seq<Int32>, base: nat, n: int, i: nat)
    requires Fits(s, base, n) && i < n
    ensures AfterPair(s, base, n, base, n)[2 * (base + i)] == RestoredTwice(s, base, i)
    ensures AfterPair(s, base, n, base, n)[2 * (base + i) + 1] == SignWord(RestoredTwice(s, base, i))
  {
    var seen := CompressedPair(s, base, n, base, n);
    var half := i / 2;
    assert i == 2 * half || i == 2 * half + 1;
    ExpandedWords(Expanded(seen, base, n), base, n, base + i);   // read back from word 2 * base + i ...
    ExpandedWords(seen, base, n, base + half);                   // ... which is one half of slot base + half
    CompressedTwiceWord(s, base, n, half);
  }

  /** The double restore: even entries come back, every odd entry becomes the sign of its left neighbour. */
  lemma SameArrayRestore(s: seq<Int32>, base: nat, n: int, i: nat)
    requires Fits(s, base, n) && i < n
    ensures HandleAt(AfterPair(s, base, n, base, n), base + i)
         == if i % 2 == 0 then LowWord(HandleAt(s, base + i)) else SignWord(LowWord(HandleAt(s, base + i - 1)))
  {
    SameArrayWords(s, base, n, i);
    SignExtendedHandle(AfterPair(s, base, n, base, n), base + i);
    LowWordAt(s, if i % 2 == 0 then base + i else base + i - 1);
  }

  /** If the slot is at an odd place of the array, its handle is the sign of its left neighbour. */
  ghost predicate SignIfOdd(s: seq<Int32>, base: nat, slot: nat)
    requires base <= slot && 2 * slot + 1 < |s|
  {
    (slot - base) % 2 == 1 ==> HandleAt(s, slot) == SignWord(LowWord(HandleAt(s, slot - 1)))
  }

  lemma SameArraySlotKeptIff(s: seq<Int32>, base: nat, n: int, slot: nat)
    requires Fits(s, base, n) && base <= slot < base + n && FitsInt32(HandleAt(s, slot))
    ensures SameSlot(AfterPair(s, base, n, base, n), s, slot) <==> SignIfOdd(s, base, slot)
  {
    SameArrayWords(s, base, n, slot - base);
    FittingHandleWords(s, slot);
    if slot > base {
      LowWordAt(s, slot - 1);
    }
  }

  /** Passing one array of canonical handles twice leaves it unchanged iff each odd handle is the sign of its left neighbour. */
  lemma SameArrayUnchangedIff(s: seq<Int32>, base: nat, n: int)
    requires Fits(s, base, n) && Canonical(s, base, n)
    ensures AfterPair(s, base, n, base, n) == s <==> forall slot :: base <= slot < base + n ==> SignIfOdd(s, base, slot)
  {
    var after := AfterPair(s, base, n, base, n);
    forall slot | base <= slot < base + n
      ensures SameSlot(after, s, slot) <==> SignIfOdd(s, base, slot)
    {
      SameArraySlotKeptIff(s, base, n, slot);
    }
    if forall slot :: base <= slot < base + n ==> SignIfOdd(s, base, slot) {
      ExpandedOutside(Expanded(CompressedPair(s, base, n, base, n), base, n), base, n);
      ExpandedOutside(CompressedPair(s, base, n, base, n), base, n);
      SameSlotsSameMemory(after, s, base, n);
    }
  }

  /** The example that passes one array of equal types twice: the call is right, but every odd type is lost. */
  lemma EqualTypesPassedTwice(s: seq<Int32>, base: nat, n: int, w: Int32)
    requires Fits(s, base, n) && 0 < w
    requires forall slot :: base <= slot < base + n ==> HandleAt(s, slot) == w
    ensures SeenRight(s, base, n, base, n)
    ensures forall slot :: base <= slot < base + n ==>
      HandleAt(AfterPair(s, base, n, base, n), slot) == if (slot - base) % 2 == 0 then w else 0
  {
    forall slot | base <= slot < base + n
      ensures s[2 * slot] == w
    {
      FittingHandleWords(s, slot);
    }
    EqualTypesSeenRight(s, base, n, w);
    forall slot | base <= slot < base + n
      ensures HandleAt(AfterPair(s, base, n, base, n), slot) == if (slot - base) % 2 == 0 then w else 0
    {
      SameArrayWords(s, base, n, slot - base);
      SignExtendedHandle(AfterPair(s, base, n, base, n), slot);
    }
  }

  lemma EqualTypesSeenRight(s: seq<Int32>, base: nat, n: int, w: Int32)
    requires Fits(s, base, n)
    requires forall slot :: base <= slot < base + n ==> s[2 * slot] == w
    ensures SeenRight(s, base, n, base, n)
  {
    SameArraySeenRightIff(s, base, n);
    forall i: nat | i < n
      ensures LowWords(s, base, n)[i] == w
    {
      LowWordsAt(s, base, n, i);
    }
  }

  // ---- Every placement ----

  /** Memory holding the handle 1 in slot `special` and 0 everywhere else: all canonical. */
  function Marked(len: nat, special: nat): (s: seq<Int32>)
    ensures |s| == len
  {
    seq(len, k => if k == 2 * special then 1 else 0)
  }

  lemma MarkedCanonical(len: nat, special: nat, base: nat, n: int)
    requires Fits(Marked(len, special), base, n)
    ensures Canonical(Marked(len, special), base, n)
  {
  }

  /** If the receive array starts inside the send array, its second handle is lost whatever the memory held. */
  lemma ReceiveInsideSendLosesHandle(s: seq<Int32>, sb: nat, n: int, rb: nat, m: int)
    requires FitBoth(s, sb, n, rb, m)
    requires sb <= rb < sb + n && 2 <= m
    ensures AfterPair(s, sb, n, rb, m)[2 * (rb + 1)] in {0, -1}
    ensures HandleAt(AfterPair(s, sb, n, rb, m), rb + 1) in {0, -1}
  {
    var seen := CompressedPair(s, sb, n, rb, m);
    ExpandedWords(seen, sb, n, rb);
    ExpandedWords(Expanded(seen, sb, n), rb, m, rb + 1);
    SignExtendedHandle(AfterPair(s, sb, n, rb, m), rb + 1);
  }

  /** Where the forward scans of an unsafe placement hand the native call another slot's handle. */
  lemma UnsafePlacementMisreads(s: seq<Int32>, sb: nat, n: int, rb: nat, m: int)
    requires FitBoth(s, sb, n, rb, m) && !SafePlacement(sb, n, rb, m) && !(sb <= rb && 2 <= m)
    ensures var seen := CompressedPair(s, sb, n, rb, m);
      if sb <= rb then seen[2 * rb] == s[2 * (2 * rb - sb)]
      else if 2 * (sb - rb) < m then
        seen[2 * sb] == s[2 * (if 2 * (sb - rb) < n then sb + 2 * (sb - rb) else sb + (sb - rb))]
      else seen[rb + sb + 1] == s[2 * (sb + 2)]
  {
  }

  /** An entry whose packed word differs from its slot's low word is misread. */
  lemma MisreadEntry(s: seq<Int32>, sb: nat, n: int, rb: nat, m: int, base: nat, len: int, i: nat)
    requires FitBoth(s, sb, n, rb, m) && (base, len) in {(sb, n), (rb, m)} && i < len
    requires CompressedPair(s, sb, n, rb, m)[2 * base + i] != s[2 * (base + i)]
    ensures !SeenRight(s, sb, n, rb, m)
  {
    LowWordsAt(s, base, len, i);
    assert NativeView(CompressedPair(s, sb, n, rb, m), base, len)[i] == CompressedPair(s, sb, n, rb, m)[2 * base + i];
  }

  /** Outside the safe placements some canonical content is misread or lost. */
  lemma UnsafePlacementFails(len: nat, sb: nat, n: int, rb: nat, m: int) returns (special: nat)
    requires FitBoth(Marked(len, 0), sb, n, rb, m) && !SafePlacement(sb, n, rb, m)
    ensures !Faithful(Marked(len, special), sb, n, rb, m)
  {
    if sb <= rb && 2 <= m {
      special := rb + 1;
      ReceiveInsideSendLosesHandle(Marked(len, special), sb, n, rb, m);
      assert Marked(len, special)[2 * (rb + 1)] == 1;
    } else if sb <= rb {
      special := rb;
      UnsafePlacementMisreads(Marked(len, special), sb, n, rb, m);
      MisreadEntry(Marked(len, special), sb, n, rb, m, rb, m, 0);
    } else if 2 * (sb - rb) < m {
      special := sb;
      UnsafePlacementMisreads(Marked(len, special), sb, n, rb, m);
      MisreadEntry(Marked(len, special), sb, n, rb, m, sb, n, 0);
    } else {
      special := sb + 1;
      UnsafePlacementMisreads(Marked(len, special), sb, n, rb, m);
      MisreadEntry(Marked(len, special), sb, n, rb, m, rb, m, sb + 1 - rb);
    }
  }

  lemma SingleReceiveViews(s: seq<Int32>, sb: nat, n: int, rb: nat)
    requires FitBoth(s, sb, n, rb, 1) && sb <= rb < sb + n && (rb == sb || n <= 2 * (rb - sb))
    ensures NativeView(Compressed(s, sb, n), sb, n) == LowWords(s, sb, n)
    ensures NativeView(Compressed(s, sb, n), rb, 1) == LowWords(s, rb, 1)
  {
    hide LowWords, NativeView;
    ViewIsLowWords(s, Compressed(s, sb, n), sb, n);
    ViewIsLowWords(s, Compressed(s, sb, n), rb, 1);
  }

  /** The receive array is a single slot inside the send array that the forward scan does not reach. */
  lemma SingleReceiveSlotIsFaithful(s: seq<Int32>, sb: nat, n: int, rb: nat)
    requires FitBoth(s, sb, n, rb, 1) && sb <= rb < sb + n && (rb == sb || n <= 2 * (rb - sb))
    requires Canonical(s, sb, n)
    ensures Faithful(s, sb, n, rb, 1)
  {
    assert Canonical(s, rb, 1);
    hide Expanded, LowWords, NativeView, Canonical, Compressed;
    SingleReceiveViews(s, sb, n, rb);
    FirstEntryStays(Compressed(s, sb, n), rb, 1);
    RoundTripIdentityIff(s, sb, n);
    FirstEntryStays(s, rb, 1);
    RoundTripIdentityIff(s, rb, 1);
  }

  /** The receive scan reads only words the send scan left alone, and writes below the send array. */
  lemma UpperHalfWords(s: seq<Int32>, sb: nat, n: int, rb: nat, m: int)
    requires FitBoth(s, sb, n, rb, m) && 0 < n
    requires rb < sb < rb + m && m <= 2 * (sb - rb) && (sb - rb == m - 1 || n <= 2)
    ensures var seen := CompressedPair(s, sb, n, rb, m);
      && (forall k :: 2 * sb <= k < 2 * sb + n ==> seen[k] == s[2 * (k - sb)])
      && (forall k :: 2 * rb <= k < 2 * rb + m ==> seen[k] == s[2 * (k - rb)])
      && (forall k {:trigger seen[k]} :: 0 <= k < |s| && !(2 * rb <= k < 2 * (rb + m)) && !(2 * sb <= k < 2 * (sb + n)) ==> seen[k] == s[k])
  {
  }

  /** Restoring gives a fitting handle back to the slot its low word was packed from. */
  lemma RestoredSlot(s: seq<Int32>, packed: seq<Int32>, base: nat, n: int, slot: nat)
    requires |packed| == |s| && Fits(s, base, n) && base <= slot < base + n
    requires FitsInt32(HandleAt(s, slot)) && packed[base + slot] == s[2 * slot]
    ensures SameSlot(Expanded(packed, base, n), s, slot)
  {
    ExpandedWords(packed, base, n, slot);
    FittingHandleWords(s, slot);
  }

  /** Memory in which both arrays are packed, canonical, and apart from each other is restored slot by slot. */
  lemma PackedPairRestored(s: seq<Int32>, seen: seq<Int32>, sb: nat, n: int, rb: nat, m: int)
    requires |seen| == |s| && FitBoth(s, sb, n, rb, m) && 0 < n
    requires rb < sb < rb + m && m <= 2 * (sb - rb)
    requires Canonical(s, sb, n) && Canonical(s, rb, m)
    requires forall k :: 2 * sb <= k < 2 * sb + n ==> seen[k] == s[2 * (k - sb)]
    requires forall k :: 2 * rb <= k < 2 * rb + m ==> seen[k] == s[2 * (k - rb)]
    requires forall k {:trigger seen[k]} :: 0 <= k < |s| && !(2 * rb <= k < 2 * (rb + m)) && !(2 * sb <= k < 2 * (sb + n)) ==> seen[k] == s[k]
    ensures Expanded(Expanded(seen, sb, n), rb, m) == s
  {
    hide Expanded, HandleAt, FitsInt32, SignWord;
    var once := Expanded(seen, sb, n);
    var after := Expanded(once, rb, m);
    ExpandedOutside(seen, sb, n);
    ExpandedOutside(once, rb, m);
    forall slot | sb <= slot < sb + n
      ensures SameSlot(once, s, slot)
    {
      RestoredSlot(s, seen, sb, n, slot);
    }
    forall slot | rb <= slot < rb + m
      ensures SameSlot(after, s, slot)
    {
      RestoredSlot(s, once, rb, m, slot);
    }
    forall k | 0 <= k < |s| && !(2 * rb <= k < 2 * (rb + m))
      ensures after[k] == s[k]
    {
      if 2 * sb <= k < 2 * (sb + n) {
        assert SameSlot(once, s, k / 2);
      }
    }
    SameSlotsSameMemory(after, s, rb, m);
  }

  /** The send array starts in the upper half of the receive array, past its compressed words. */
  lemma SendInUpperHalfIsFaithful(s: seq<Int32>, sb: nat, n: int, rb: nat, m: int)
    requires FitBoth(s, sb, n, rb, m) && 0 < n
    requires rb < sb < rb + m && m <= 2 * (sb - rb) && (sb - rb == m - 1 || n <= 2)
    requires Canonical(s, sb, n) && Canonical(s, rb, m)
    ensures Faithful(s, sb, n, rb, m)
  {
    hide Compressed, CompressedPair, Expanded, LowWords, NativeView, Canonical;
    var seen := CompressedPair(s, sb, n, rb, m);
    UpperHalfWords(s, sb, n, rb, m);
    ViewIsLowWords(s, seen, rb, m);
    ViewIsLowWords(s, seen, sb, n);
    PackedPairRestored(s, seen, sb, n, rb, m);
  }

  /**
   The exact condition on where the caller puts the two arrays: the wrapper is faithful to
   every canonical content of the memory if and only if the placement is safe.
   */
  lemma FaithfulIffSafePlacement(len: nat, sb: nat, n: int, rb: nat, m: int)
    requires FitBoth(Marked(len, 0), sb, n, rb, m)
    ensures SafePlacement(sb, n, rb, m) <==>
      forall s: seq<Int32> :: |s| == len && Canonical(s, sb, n) && Canonical(s, rb, m) ==> Faithful(s, sb, n, rb, m)
  {
    if SafePlacement(sb, n, rb, m) {
      forall s: seq<Int32> | |s| == len && Canonical(s, sb, n) && Canonical(s, rb, m)
        ensures Faithful(s, sb, n, rb, m)
      {
        if Disjoint(sb, n, rb, m) {
          DisjointIsFaithful(s, sb, n, rb, m);
        } else if sb <= rb {
          SingleReceiveSlotIsFaithful(s, sb, n, rb);
        } else {
          SendInUpperHalfIsFaithful(s, sb, n, rb, m);
        }
      }
    } else {
      var special := UnsafePlacementFails(len, sb, n, rb, m);
      MarkedCanonical(len, special, sb, n);
      MarkedCanonical(len, special, rb, m);
      assert |Marked(len, special)| == len;
    }
  }
}
