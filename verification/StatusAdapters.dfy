/**
 Status arrays: the native library writes packed 20-byte records, the facade
 exposes 24-byte slots, and the records are spread in place by a backward scan.
 The completion wrappers combine this with the request adapters.
 */
module StatusAdapters {
  import opened HandleWords
  import opened HandleAdapters

  type Byte = x: int | 0 <= x < 256

  const RECORD := 20   // sizeof(struct unimpi_status_legacy)
  const SLOT := 24     // sizeof(union MPI_Status)

  predicate FitsSlots(s: seq<Byte>, n: int) {
    n <= 0 || SLOT * n <= |s|
  }

  /** The 20 bytes from an offset on. */
  function RecordAt(s: seq<Byte>, offset: nat): (r: seq<Byte>)
    requires offset + RECORD <= |s|
    ensures |r| == RECORD
  {
    s[offset..offset + RECORD]
  }

  /** The four bytes of slot j that no record covers. */
  function PaddingAt(s: seq<Byte>, j: nat): seq<Byte>
    requires SLOT * (j + 1) <= |s|
  {
    s[SLOT * j + RECORD..SLOT * (j + 1)]
  }

  /** One record moved to its slot, all 20 source bytes being read before any byte is written. */
  function MoveRecord(s: seq<Byte>, i: nat): (r: seq<Byte>)
    requires SLOT * i + RECORD <= |s|
    ensures |r| == |s|
  {
    s[..SLOT * i] + RecordAt(s, RECORD * i) + s[SLOT * i + RECORD..]
  }

  /** Memory after the rest of a backward scan that has reached record i. */
  function SpreadFrom(s: seq<Byte>, i: int): (r: seq<Byte>)
    requires FitsSlots(s, i + 1)
    ensures |r| == |s|
    decreases i
  {
    if i < 0 then s else SpreadFrom(MoveRecord(s, i), i - 1)
  }

  /** Memory after the whole backward scan. */
  function Spread(s: seq<Byte>, n: int): (r: seq<Byte>)
    requires FitsSlots(s, n)
    ensures |r| == |s|
  {
    SpreadFrom(s, n - 1)
  }

  /** One record copied with `memmove` semantics: the assignment reads every byte before it writes any. */
  method MoveRecordInPlace(bytes: array<Byte>, i: nat)
    requires SLOT * i + RECORD <= bytes.Length
    modifies bytes
    ensures bytes[..] == MoveRecord(old(bytes[..]), i)
  {
    var src, dst := RECORD * i, SLOT * i;
    forall k | dst <= k < dst + RECORD {
      bytes[k] := bytes[src + (k - dst)];
    }
  }

  method SpreadInPlace(bytes: array<Byte>, n: int)
    requires FitsSlots(bytes[..], n)
    modifies bytes
    ensures bytes[..] == Spread(old(bytes[..]), n)
  {
    var i := n - 1;
    while i >= 0
      invariant i < n && FitsSlots(bytes[..], i + 1)
      invariant SpreadFrom(bytes[..], i) == SpreadFrom(old(bytes[..]), n - 1)
    {
      MoveRecordInPlace(bytes, i);
      i := i - 1;
    }
  }

  // ---- What the scan leaves where ----

  /** Bytes from the end of the last moved record on are not touched. */
  lemma {:induction false} SpreadAbove(s: seq<Byte>, i: int)
    requires FitsSlots(s, i + 1)
    ensures forall k :: 0 <= k < |s| && SLOT * i + RECORD <= k ==> SpreadFrom(s, i)[k] == s[k]
    decreases i
  {
    if i >= 0 {
      SpreadAbove(MoveRecord(s, i), i - 1);
    }
  }

  /** Moving a record writes its slot's 20 bytes and nothing else. */
  lemma MoveRecordBytes(s: seq<Byte>, i: nat, from: nat, to: nat)
    requires SLOT * i + RECORD <= |s| && from <= to <= |s|
    ensures RecordAt(MoveRecord(s, i), SLOT * i) == RecordAt(s, RECORD * i)
    ensures to <= SLOT * i || SLOT * i + RECORD <= from ==> MoveRecord(s, i)[from..to] == s[from..to]
  {
    if to <= SLOT * i || SLOT * i + RECORD <= from {
      assert forall k {:trigger MoveRecord(s, i)[k]} :: from <= k < to ==> MoveRecord(s, i)[k] == s[k];
    }
  }

  lemma {:induction false} SpreadSlot(s: seq<Byte>, i: int, j: nat)
    requires FitsSlots(s, i + 1) && j <= i
    ensures RecordAt(SpreadFrom(s, i), SLOT * j) == RecordAt(s, RECORD * j)
    ensures PaddingAt(SpreadFrom(s, i), j) == PaddingAt(s, j)
    decreases i
  {
    hide MoveRecord;
    var next := MoveRecord(s, i);
    MoveRecordBytes(s, i, SLOT * j + RECORD, SLOT * (j + 1));
    if j < i {
      SpreadSlot(next, i - 1, j);
      MoveRecordBytes(s, i, RECORD * j, RECORD * j + RECORD);
    } else {
      SpreadAbove(next, i - 1);
      var after := SpreadFrom(s, i);
      assert after[SLOT * j..SLOT * j + RECORD] == next[SLOT * j..SLOT * j + RECORD];
      assert after[SLOT * j + RECORD..SLOT * (j + 1)] == next[SLOT * j + RECORD..SLOT * (j + 1)];
    }
  }

  /**
   After the scan slot j holds native record j, for every j below the count; the four bytes that
   pad a slot, and every byte past the slots, are as before. A count of zero or less changes nothing.
   */
  lemma SpreadMeaning(s: seq<Byte>, n: int)
    requires FitsSlots(s, n)
    ensures forall j: nat :: j < n ==>
      && RecordAt(Spread(s, n), SLOT * j) == RecordAt(s, RECORD * j)
      && PaddingAt(Spread(s, n), j) == PaddingAt(s, j)
    ensures forall k :: 0 <= k < |s| && SLOT * n <= k ==> Spread(s, n)[k] == s[k]
    ensures n <= 0 ==> Spread(s, n) == s
  {
    forall j: nat | j < n
      ensures RecordAt(Spread(s, n), SLOT * j) == RecordAt(s, RECORD * j)
      ensures PaddingAt(Spread(s, n), j) == PaddingAt(s, j)
    {
      SpreadSlot(s, n - 1, j);
    }
    SpreadAbove(s, n - 1);
  }

  // ---- The fields a caller reads ----

  /** A little-endian 32-bit field of a record. */
  function FieldOf(record: seq<Byte>, offset: nat): Int32
    requires offset + 4 <= |record|
  {
    var bits: int := record[offset] + 0x100 * record[offset + 1] as int
                     + 0x1_0000 * record[offset + 2] as int + 0x100_0000 * record[offset + 3] as int;
    if bits < TWO_TO_31 then bits else bits - TWO_TO_32
  }

  datatype Status = Status(source: Int32, tag: Int32, error: Int32)

  /** The fields of the legacy layout that starts at an offset. */
  function StatusAt(s: seq<Byte>, offset: nat): Status
    requires offset + RECORD <= |s|
  {
    var record := RecordAt(s, offset);
    Status(FieldOf(record, 8), FieldOf(record, 12), FieldOf(record, 16))
  }

  /** The little-endian bytes of a 32-bit field. */
  function BytesOf(w: Int32): (r: seq<Byte>)
    ensures |r| == 4
  {
    var bits: int := if w < 0 then w + TWO_TO_32 else w;
    var b1 := bits / 0x100;
    var b2 := b1 / 0x100;
    [bits % 0x100, b1 % 0x100, b2 % 0x100, b2 / 0x100]
  }

  lemma BytesAddUp(w: Int32)
    ensures FieldOf(BytesOf(w), 0) == w
  {
    var bits: int := if w < 0 then w + TWO_TO_32 else w;
    var b1 := bits / 0x100;
    var b2 := b1 / 0x100;
    assert bits == 0x100 * b1 + bits % 0x100 && b1 == 0x100 * b2 + b1 % 0x100 && b2 == 0x100 * (b2 / 0x100) + b2 % 0x100;
  }

  lemma FieldOfBytes(before: seq<Byte>, w: Int32, after: seq<Byte>)
    ensures FieldOf(before + BytesOf(w) + after, |before|) == w
  {
    BytesAddUp(w);
    hide BytesOf;
    var record, bytes := before + BytesOf(w) + after, BytesOf(w);
    assert record[|before|] == bytes[0] && record[|before| + 1] == bytes[1];
    assert record[|before| + 2] == bytes[2] && record[|before| + 3] == bytes[3];
  }

  /** The legacy layout: two count words, then source, tag and error are read back from where a backend puts them. */
  lemma StatusLayout(lo: Int32, hi: Int32, st: Status)
    ensures StatusAt(BytesOf(lo) + BytesOf(hi) + BytesOf(st.source) + BytesOf(st.tag) + BytesOf(st.error), 0) == st
  {
    var counts := BytesOf(lo) + BytesOf(hi);
    var record := counts + BytesOf(st.source) + BytesOf(st.tag) + BytesOf(st.error);
    hide BytesOf, FieldOf;
    assert record == counts + BytesOf(st.source) + (BytesOf(st.tag) + BytesOf(st.error));
    FieldOfBytes(counts, st.source, BytesOf(st.tag) + BytesOf(st.error));
    assert record == (counts + BytesOf(st.source)) + BytesOf(st.tag) + BytesOf(st.error);
    FieldOfBytes(counts + BytesOf(st.source), st.tag, BytesOf(st.error));
    assert record == (counts + BytesOf(st.source) + BytesOf(st.tag)) + BytesOf(st.error) + [];
    FieldOfBytes(counts + BytesOf(st.source) + BytesOf(st.tag), st.error, []);
    assert RecordAt(record, 0) == record;
  }

  /** Source, tag and error read from facade slot j are those of native record j. */
  lemma SpreadStatuses(s: seq<Byte>, n: int)
    requires FitsSlots(s, n)
    ensures forall j: nat :: j < n ==> StatusAt(Spread(s, n), SLOT * j) == StatusAt(s, RECORD * j)
  {
    SpreadMeaning(s, n);
  }

  // ---- Why the record copy must read before it writes ----

  /** A copy that writes byte after byte in ascending order, as a plain memcpy may. */
  function AscendingCopy(s: seq<Byte>, src: nat, dst: nat, len: nat): (r: seq<Byte>)
    requires src + len <= |s| && dst + len <= |s|
    ensures |r| == |s|
  {
    if len == 0 then s
    else var before := AscendingCopy(s, src, dst, len - 1); before[dst + len - 1 := before[src + len - 1]]
  }

  lemma {:induction false} AscendingCopyBytes(s: seq<Byte>, src: nat, dst: nat, len: nat)
    requires src <= dst && dst + len <= |s|
    ensures forall k :: 0 <= k < |s| && !(dst <= k < dst + len) ==> AscendingCopy(s, src, dst, len)[k] == s[k]
    ensures src == dst || src + len <= dst ==> AscendingCopy(s, src, dst, len) == s[..dst] + s[src..src + len] + s[dst + len..]
    ensures src < dst && dst - src < len ==> AscendingCopy(s, src, dst, len)[dst + (dst - src)] == s[src]
  {
    if len > 0 {
      AscendingCopyBytes(s, src, dst, len - 1);
      assert AscendingCopy(s, src, dst, len - 1)[src + len - 1] == s[src + len - 1] || (src < dst && dst - src < len);
      assert s[src..src + len] == s[src..src + len - 1] + [s[src + len - 1]];
      if src < dst && dst - src == len - 1 {
        AscendingFirstByte(s, src, dst, len - 1);
      }
    }
  }

  lemma {:induction false} AscendingFirstByte(s: seq<Byte>, src: nat, dst: nat, len: nat)
    requires src < dst && dst + len <= |s| && 0 < len
    ensures AscendingCopy(s, src, dst, len)[dst] == s[src]
  {
    if len > 1 {
      AscendingFirstByte(s, src, dst, len - 1);
    }
  }

  /** An ascending byte copy moves record i correctly. */
  ghost predicate AscendingCopyMoves(s: seq<Byte>, i: nat)
    requires SLOT * i + RECORD <= |s|
  {
    AscendingCopy(s, RECORD * i, SLOT * i, RECORD) == MoveRecord(s, i)
  }

  lemma AscendingCopyWithoutOverlap(s: seq<Byte>, i: nat)
    requires SLOT * i + RECORD <= |s| && (i == 0 || 5 <= i)
    ensures AscendingCopyMoves(s, i)
  {
    AscendingCopyBytes(s, RECORD * i, SLOT * i, RECORD);
  }

  /** For records 1 to 4 some content is corrupted by an ascending copy. */
  lemma AscendingCopyCorrupts(len: nat, i: nat) returns (s: seq<Byte>)
    requires SLOT * i + RECORD <= len && 0 < i < 5
    ensures |s| == len && !AscendingCopyMoves(s, i)
  {
    s := seq(len, k => if k == RECORD * i then 1 else 0);
    AscendingCopyBytes(s, RECORD * i, SLOT * i, RECORD);
    var wrong := SLOT * i + 4 * i;
    assert AscendingCopy(s, RECORD * i, SLOT * i, RECORD)[wrong] == 1;
    assert MoveRecord(s, i)[wrong] == RecordAt(s, RECORD * i)[4 * i] == s[SLOT * i] == 0;
  }

  /**
   The record copy has overlapping source and destination for records 1 to 4: an ascending
   byte copy moves record i correctly for every content exactly when i is 0 or at least 5.
   */
  lemma AscendingCopyCorrectIff(len: nat, i: nat)
    requires SLOT * i + RECORD <= len
    ensures (i == 0 || 5 <= i) <==> forall s: seq<Byte> :: |s| == len ==> AscendingCopyMoves(s, i)
  {
    if i == 0 || 5 <= i {
      forall s: seq<Byte> | |s| == len
        ensures AscendingCopyMoves(s, i)
      {
        AscendingCopyWithoutOverlap(s, i);
      }
    } else {
      var s := AscendingCopyCorrupts(len, i);
    }
  }

  // ---- The completion wrappers ----

  /** The status argument: absent, the ignore sentinel, or a real array. */
  datatype StatusArg = NullStatuses | IgnoreStatuses | Statuses(bytes: array<Byte>)

  function Target(st: StatusArg): set<object> {
    if st.Statuses? then {st.bytes} else {}
  }

  /** The bytes of a status argument that a native call of n requests may write. */
  function NativeStatusBytes(s: seq<Byte>, n: int): (r: seq<Byte>)
    requires FitsSlots(s, n)
    ensures r <= s && |r| == if n <= 0 then 0 else RECORD * n
  {
    if n <= 0 then [] else s[..RECORD * n]
  }

  /** What a native completion call does: codes, the rewritten handles, and the rewritten status bytes. */
  datatype Completion = Completion(ret: int, outcount: int, handles: seq<Int32>, statusBytes: seq<Byte>)

  type NativeCompletion = (seq<Int32>, seq<Byte>) -> Completion

  /** A native call stays inside the arrays it was given and completes no more requests than it was given. */
  ghost predicate KeepsShape(native: NativeCompletion) {
    forall ws, bs :: |native(ws, bs).handles| == |ws| && |native(ws, bs).statusBytes| == |bs| && native(ws, bs).outcount <= |ws|
  }

  /** A status buffer after the native call wrote its packed records and they were spread. */
  function StatusesAfter(s: seq<Byte>, packed: seq<Byte>, spread: int): (r: seq<Byte>)
    requires |packed| <= |s| && FitsSlots(s, spread)
    ensures |r| == |s|
  {
    Spread(packed + s[|packed|..], spread)
  }

  method NativeWriteStatuses(bytes: array<Byte>, packed: seq<Byte>)
    requires |packed| <= bytes.Length
    modifies bytes
    ensures bytes[..] == packed + old(bytes[..])[|packed|..]
  {
    forall i | 0 <= i < |packed| {
      bytes[i] := packed[i];
    }
  }

  /**
   The wrappers that complete requests and report statuses: waitall and testall spread `n`
   statuses (`some` false), waitsome and testsome as many as the native call reports (`some` true).
   */
  method WrapCompletion(mem: array<Int32>, base: nat, n: int, st: StatusArg, some: bool, native: NativeCompletion)
    returns (ret: int, outcount: int)
    requires Fits(mem[..], base, n) && KeepsShape(native)
    requires st.Statuses? ==> FitsSlots(st.bytes[..], n)
    modifies mem, Target(st)
    ensures var reply := native(old(LowWords(mem[..], base, n)), if st.Statuses? then old(NativeStatusBytes(st.bytes[..], n)) else []);
      && ret == reply.ret && outcount == reply.outcount
      && mem[..] == old(WithHandles(mem[..], base, reply.handles))
      && (st.Statuses? ==> st.bytes[..] == old(StatusesAfter(st.bytes[..], reply.statusBytes, if some then outcount else n)))
  {
    ghost var was := mem[..];
    CompressInPlace(mem, base, n);
    NativeSeesLowWords(was, base, n);
    var reply := native(NativeView(mem[..], base, n), if st.Statuses? then NativeStatusBytes(st.bytes[..], n) else []);
    ret, outcount := reply.ret, reply.outcount;
    NativeWrite(mem, base, reply.handles);
    if st.Statuses? {
      NativeWriteStatuses(st.bytes, reply.statusBytes);
    }
    ExpandInPlace(mem, base, n);
    ExpandAfterNative(was, base, n, reply.handles);
    if st.Statuses? {
      SpreadInPlace(st.bytes, if some then outcount else n);
    }
  }

  /** The caller's view of a completed call: status j is the native record j, for every status that was spread. */
  lemma StatusesAfterMeaning(s: seq<Byte>, packed: seq<Byte>, n: int, spread: int)
    requires FitsSlots(s, n) && |packed| == (if n <= 0 then 0 else RECORD * n) && spread <= n
    ensures forall j: nat :: j < spread ==> StatusAt(StatusesAfter(s, packed, spread), SLOT * j) == StatusAt(packed, RECORD * j)
    ensures spread <= 0 ==> StatusesAfter(s, packed, spread) == packed + s[|packed|..]
    ensures forall k :: |packed| <= k < |s| && SLOT * spread <= k ==> StatusesAfter(s, packed, spread)[k] == s[k]
  {
    var raw := packed + s[|packed|..];
    SpreadStatuses(raw, spread);
    SpreadMeaning(raw, spread);
    forall j: nat | j < spread
      ensures StatusAt(StatusesAfter(s, packed, spread), SLOT * j) == StatusAt(packed, RECORD * j)
    {
      assert RecordAt(raw, RECORD * j) == RecordAt(packed, RECORD * j);
    }
  }
}
