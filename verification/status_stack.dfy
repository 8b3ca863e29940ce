/** The bounded stack of directional status entries used by explicit-level
    resolution.

    The source keeps its entries in chained 16-slot blocks with a cursor
    (block, slot). Flattened, the cursor is one position `top` into a slot
    sequence that only grows: a push moves it up by one and writes the new
    slot, a pop moves it down by one, and slot 0 is never written. The top
    accessors read the slot at `top` whatever `size` says; `Clear` zeroes
    only `size`, while `Reset` also moves the cursor back to slot 0. */
module StatusStack {
  import opened BidiTypes
  import Level

  /** One directional status: embedding level, override status and
      isolate status. */
  datatype Entry = Entry(embeddingLevel: Byte, overrideStatus: CharType, isolateStatus: bool)

  /** The contents of a slot that was never written. */
  const DefaultEntry: Entry := Entry(0, Nil, false)

  /** At most max_depth + 2 entries (section 3.3.2 of UAX #9). */
  const MaxElements: int := Level.MaxValue as int + 2

  datatype Stack = Stack(slots: seq<Entry>, top: nat, size: nat)

  /** The cursor lies on an allocated slot and never trails the entry count. */
  predicate Valid(s: Stack) {
    && |s.slots| > 0 && s.top < |s.slots| && s.slots[0] == DefaultEntry
    && s.size <= s.top && s.size <= MaxElements
  }

  function NewStack(): (s: Stack)
    ensures Valid(s)
    ensures Count(s) == 0 && IsEmpty(s)
  {
    Stack([DefaultEntry], 0, 0)
  }

  /** Empties the stack and moves the cursor back to the first slot. */
  function Reset(s: Stack): (r: Stack)
    requires Valid(s)
    ensures Valid(r)
    ensures Count(r) == 0
    ensures Top(r) == DefaultEntry
  {
    Stack(s.slots, 0, 0)
  }

  /** Zeroes the entry count only; the cursor stays where it was. */
  function Clear(s: Stack): (r: Stack)
    requires Valid(s)
    ensures Valid(r)
    ensures Count(r) == 0
    ensures Top(r) == Top(s)
  {
    s.(size := 0)
  }

  function Count(s: Stack): nat {
    s.size
  }

  predicate IsEmpty(s: Stack) {
    s.size == 0
  }

  /** The slot under the cursor. */
  function Top(s: Stack): Entry
    requires Valid(s)
  {
    s.slots[s.top]
  }

  function EmbeddingLevel(s: Stack): Byte
    requires Valid(s)
  {
    Top(s).embeddingLevel
  }

  function OverrideStatus(s: Stack): CharType
    requires Valid(s)
  {
    Top(s).overrideStatus
  }

  function IsolateStatus(s: Stack): bool
    requires Valid(s)
  {
    Top(s).isolateStatus
  }

  /** `(level + 2) & ~1` truncated to a byte: clearing the low bit of
      level + 2. Below 254 it is the least even level above the top one. */
  function EvenLevel(s: Stack): (r: Byte)
    requires Valid(s)
    ensures EmbeddingLevel(s) < 254 ==>
              r % 2 == 0 && r > EmbeddingLevel(s) && r - 2 <= EmbeddingLevel(s)
  {
    var n := EmbeddingLevel(s) + 2;
    ToByte(n - n % 2)
  }

  /** `(level + 1) | 1` truncated to a byte: setting the low bit of
      level + 1. Below 254 it is the least odd level above the top one. */
  function OddLevel(s: Stack): (r: Byte)
    requires Valid(s)
    ensures EmbeddingLevel(s) < 254 ==>
              r % 2 == 1 && r > EmbeddingLevel(s) && r - 2 <= EmbeddingLevel(s)
  {
    var n := EmbeddingLevel(s) + 1;
    ToByte(if n % 2 == 1 then n else n + 1)
  }

  /** Pushes an entry; a full stack is a capacity fault. */
  function Push(s: Stack, level: Byte, overrideStatus: CharType, isolateStatus: bool): (r: Result<Stack>)
    requires Valid(s)
    ensures r.Fault? <==> Count(s) == MaxElements
    ensures r.Ok? ==> Valid(r.value)
    ensures r.Ok? ==> Count(r.value) == Count(s) + 1
    ensures r.Ok? ==> (EmbeddingLevel(r.value) == level
                       && OverrideStatus(r.value) == overrideStatus
                       && IsolateStatus(r.value) == isolateStatus)
  {
    if s.size == MaxElements then
      Fault("The stack is full.")
    else
      var e := Entry(level, overrideStatus, isolateStatus);
      var slots := if s.top + 1 < |s.slots| then s.slots[s.top + 1 := e] else s.slots + [e];
      Ok(Stack(slots, s.top + 1, s.size + 1))
  }

  /** Pops the top entry; an empty stack is a fault. */
  function Pop(s: Stack): (r: Result<Stack>)
    requires Valid(s)
    ensures r.Fault? <==> IsEmpty(s)
    ensures r.Ok? ==> Valid(r.value) && Count(r.value) == Count(s) - 1
    ensures r.Ok? ==> Top(r.value) == s.slots[s.top - 1]
  {
    if s.size == 0 then
      Fault("The stack is empty.")
    else
      Ok(Stack(s.slots, s.top - 1, s.size - 1))
  }

  /** A push followed by a pop restores the count and the visible top, so
      the entry below is exposed again. */
  lemma PushPopRestoresTop(s: Stack, level: Byte, overrideStatus: CharType, isolateStatus: bool)
    requires Valid(s)
    requires Count(s) < MaxElements
    ensures Push(s, level, overrideStatus, isolateStatus).Ok?
    ensures var p := Pop(Push(s, level, overrideStatus, isolateStatus).value);
            p.Ok? && Count(p.value) == Count(s) && Top(p.value) == Top(s)
  {
  }

  /** Pushing `n` entries one after the other onto a stack: the capacity
      bound is hit exactly when more than MaxElements entries are live. */
  function PushAll(s: Stack, entries: seq<Entry>): (r: Result<Stack>)
    requires Valid(s)
    ensures r.Ok? ==> Valid(r.value)
    decreases |entries|
  {
    if |entries| == 0 then Ok(s)
    else
      match Push(s, entries[0].embeddingLevel, entries[0].overrideStatus, entries[0].isolateStatus)
      case Fault(m) => Fault(m)
      case Ok(t) => PushAll(t, entries[1..])
  }

  /** A run of pushes succeeds exactly when it stays within capacity, and
      then the count grows by the number of entries and the last one is on
      top. */
  lemma {:induction false} PushAllWithinCapacity(s: Stack, entries: seq<Entry>)
    requires Valid(s)
    ensures PushAll(s, entries).Ok? <==> Count(s) + |entries| <= MaxElements
    ensures PushAll(s, entries).Ok? ==> Count(PushAll(s, entries).value) == Count(s) + |entries|
    ensures PushAll(s, entries).Ok? && |entries| > 0 ==> Top(PushAll(s, entries).value) == entries[|entries| - 1]
    decreases |entries|
  {
    if |entries| > 0 {
      var e := entries[0];
      var p := Push(s, e.embeddingLevel, e.overrideStatus, e.isolateStatus);
      if p.Ok? {
        PushAllWithinCapacity(p.value, entries[1..]);
        if |entries| == 1 {
          assert Top(p.value) == e;
        }
      } else {
        assert Count(s) == MaxElements;
      }
    }
  }
}
