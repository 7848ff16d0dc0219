/**
 dni/go/service/generator/ringbuffer.go: a ring of equal slots in shared memory
 with byte offsets kept in 32-bit unsigned words. The writer is expected to leave
 one slot free; the code does not check it.
 */
module SlotRing {
  const WORD: nat := 0x1_0000_0000

  function Add32(a: nat, b: nat): nat { (a + b) % WORD }
  function Sub32(a: nat, b: nat): nat { (a - b) % WORD }

  // (tail - head + size) % size in uint32
  function Used(head: nat, tail: nat, size: nat): nat
    requires size > 0
  {
    Add32(Sub32(tail, head), size) % size
  }

  // The reader of samples/ddos/realtime_with_sccm/all_net_detect_defense_with_sccm.cc
  function UsedByBranch(head: nat, tail: nat, size: nat): int {
    if head <= tail then tail - head else size - (head - tail)
  }

  lemma ModOnce(v: nat, size: nat)
    requires 0 < size && v < 2 * size
    ensures v % size == if v < size then v else v - size
  {
  }

  /** The word arithmetic gives the distance from head to tail exactly when the sum
      before the last remainder stays below 2^32. */
  lemma UsedExact(head: nat, tail: nat, size: nat)
    requires head < size && tail < size < WORD
    ensures Used(head, tail, size) == UsedByBranch(head, tail, size) <==> tail - head + size < WORD
  {
    hide Add32, Sub32;
    var v := tail - head + size;
    assert Add32(Sub32(tail, head), size) == if v < WORD then v else v - WORD by { Wrapped(head, tail, size); }
    ModOnce(if v < WORD then v else v - WORD, size);
  }

  lemma Wrapped(head: nat, tail: nat, size: nat)
    requires head < size && tail < size < WORD
    ensures var v := tail - head + size;
            Add32(Sub32(tail, head), size) == if v < WORD then v else v - WORD
  {
  }

  // A ring of at most 2^31 bytes is always safe.
  lemma UsedSmallRing(head: nat, tail: nat, size: nat)
    requires head < size && tail < size <= 0x8000_0000
    ensures Used(head, tail, size) == UsedByBranch(head, tail, size)
  {
    hide Used;
    UsedExact(head, tail, size);
  }

  // A larger one is not.
  lemma LargeRingFails()
    ensures Used(0, 0x5000_0000, 0xC000_0000) != UsedByBranch(0, 0x5000_0000, 0xC000_0000)
  {
  }

  // Slot numbers go around.
  function Around(x: nat, count: nat): nat
    requires x < 2 * count
  {
    if x < count then x else x - count
  }

  // Moving an offset by one slot moves the slot number by one.
  lemma NextOffset(s: nat, slotSize: nat, count: nat)
    requires s < count && slotSize > 0 && count * slotSize <= 0x8000_0000
    ensures count * slotSize > 0 && s * slotSize < count * slotSize
    ensures Add32(s * slotSize, slotSize) % (count * slotSize) == Around(s + 1, count) * slotSize
  {
    assert (s + 1) * slotSize == s * slotSize + slotSize;
    assert (s + 1) * slotSize <= count * slotSize by { Times(s + 1, count, slotSize); }
    ModOnce(s * slotSize + slotSize, count * slotSize);
    if s + 1 < count {
      Times(s + 2, count, slotSize);
      assert (s + 2) * slotSize == (s + 1) * slotSize + slotSize;
    }
  }

  lemma Times(a: nat, b: nat, c: nat)
    requires a <= b
    ensures a * c <= b * c
  {
  }

  // The distance between two slots, in bytes.
  lemma Distance(h: nat, n: nat, slotSize: nat, count: nat)
    requires h < count && n < count && slotSize > 0
    ensures UsedByBranch(h * slotSize, Around(h + n, count) * slotSize, count * slotSize) == n * slotSize
  {
  }

  /** Slots do not overlap. */
  lemma SlotsApart(s: nat, t: nat, slotSize: nat)
    requires s < t
    ensures s * slotSize + slotSize <= t * slotSize
  {
    Times(s + 1, t, slotSize);
    assert (s + 1) * slotSize == s * slotSize + slotSize;
  }

  // The bytes of slot number s.
  function SlotOf(mem: seq<bv8>, s: nat, slotSize: nat, count: nat): (r: seq<bv8>)
    requires s < count && |mem| == count * slotSize
    ensures |r| == slotSize
  {
    SlotsApart(s, count, slotSize);
    mem[s * slotSize..s * slotSize + slotSize]
  }

  // copy into a byte array as long as a slot
  function Overlay(slot: seq<bv8>, data: seq<bv8>): (r: seq<bv8>)
    ensures |r| == |slot|
    ensures |data| <= |slot| ==> data <= r && r[|data|..] == slot[|data|..]
    ensures |data| > |slot| ==> r <= data
  {
    if |data| <= |slot| then data + slot[|data|..] else data[..|slot|]
  }

  // The queue of slots that lie between head and tail, oldest first.
  ghost predicate Holds(mem: seq<bv8>, unread: seq<seq<bv8>>, h: nat, slotSize: nat, count: nat)
    requires h < count && |mem| == count * slotSize && |unread| < count
  {
    forall k :: 0 <= k < |unread| ==> unread[k] == SlotOf(mem, Around(h + k, count), slotSize, count)
  }

  // Taking the oldest slot leaves the others queued.
  lemma HoldsAfterRead(mem: seq<bv8>, unread: seq<seq<bv8>>, h: nat, slotSize: nat, count: nat)
    requires h < count && |mem| == count * slotSize && 0 < |unread| < count
    requires Holds(mem, unread, h, slotSize, count)
    ensures Around(h + 1, count) < count
    ensures Holds(mem, unread[1..], Around(h + 1, count), slotSize, count)
    ensures Around(Around(h + 1, count) + |unread| - 1, count) == Around(h + |unread|, count)
    ensures unread[0] == SlotOf(mem, h, slotSize, count)
  {
  }

  // Changing the slot at tail only touches no queued slot.
  lemma HoldsAfterWrite(mem: seq<bv8>, mem': seq<bv8>, unread: seq<seq<bv8>>, h: nat, t: nat, slotSize: nat, count: nat)
    requires h < count && |mem| == count * slotSize == |mem'| && |unread| + 1 < count
    requires Holds(mem, unread, h, slotSize, count) && t == Around(h + |unread|, count)
    requires forall s :: 0 <= s < count && s != t ==> SlotOf(mem', s, slotSize, count) == SlotOf(mem, s, slotSize, count)
    ensures Holds(mem', unread + [SlotOf(mem', t, slotSize, count)], h, slotSize, count)
  {
  }

  // Bytes outside a slot decide the other slots.
  lemma OtherSlots(mem: seq<bv8>, mem': seq<bv8>, t: nat, slotSize: nat, count: nat)
    requires t < count && |mem| == count * slotSize == |mem'|
    requires t * slotSize + slotSize <= |mem|
    requires mem'[..t * slotSize] == mem[..t * slotSize]
    requires mem'[t * slotSize + slotSize..] == mem[t * slotSize + slotSize..]
    ensures forall s :: 0 <= s < count && s != t ==> SlotOf(mem', s, slotSize, count) == SlotOf(mem, s, slotSize, count)
  {
    forall s | 0 <= s < count && s != t
      ensures SlotOf(mem', s, slotSize, count) == SlotOf(mem, s, slotSize, count)
    {
      SlotsApart(s, count, slotSize);
      if s < t {
        SlotsApart(s, t, slotSize);
      } else {
        SlotsApart(t, s, slotSize);
      }
      SameSlice(mem, mem', s * slotSize, t * slotSize, slotSize);
    }
  }

  lemma SameSlice(mem: seq<bv8>, mem': seq<bv8>, a: nat, b: nat, len: nat)
    requires |mem| == |mem'| && a + len <= |mem| && b + len <= |mem|
    requires mem'[..b] == mem[..b] && mem'[b + len..] == mem[b + len..]
    requires a + len <= b || b + len <= a
    ensures mem'[a..a + len] == mem[a..a + len]
  {
  }

  // The byte copy of Write.
  method CopyInto(mem: array<bv8>, at: nat, room: nat, data: seq<bv8>)
    requires at + room <= mem.Length
    modifies mem
    ensures mem[..at] == old(mem[..at]) && mem[at + room..] == old(mem[at + room..])
    ensures mem[at..at + room] == Overlay(old(mem[at..at + room]), data)
  {
    var n := if |data| < room then |data| else room;
    for i := 0 to n
      invariant mem[..at] == old(mem[..at]) && mem[at + i..] == old(mem[at + i..])
      invariant mem[at..at + i] == data[..i]
    {
      mem[at + i] := data[i];
      assert mem[at..at + i + 1] == mem[at..at + i] + [data[i]];
      assert mem[at + i + 1..] == old(mem[at + i..])[1..];
      assert old(mem[at + i..])[1..] == old(mem[at + i + 1..]);
    }
    assert mem[at + n..at + room] == mem[at + n..][..room - n];
    assert old(mem[at + n..at + room]) == old(mem[at + n..])[..room - n];
    assert mem[at..at + room] == mem[at..at + n] + mem[at + n..at + room];
    assert old(mem[at..at + room])[n..] == old(mem[at + n..at + room]);
    assert mem[at + room..] == mem[at + n..][room - n..];
    assert old(mem[at + room..]) == old(mem[at + n..])[room - n..];
  }

  // Where tail is, and where it goes.
  lemma TailStep(h: nat, n: nat, slotSize: nat, count: nat)
    requires h < count && n < count && slotSize > 0 && count * slotSize <= 0x8000_0000
    ensures var t := Around(h + n, count);
            && t < count && t * slotSize + slotSize <= count * slotSize
            && Add32(t * slotSize, slotSize) % (count * slotSize) == (if n + 1 < count then Around(h + n + 1, count) else h) * slotSize
  {
    hide Add32;
    var t := Around(h + n, count);
    SlotsApart(t, count, slotSize);
    NextOffset(t, slotSize, count);
    assert Around(t + 1, count) == if n + 1 < count then Around(h + n + 1, count) else h;
  }

  /** Both formulas give the unread slots times the slot size. */
  lemma UsedIsUnread(h: nat, n: nat, slotSize: nat, count: nat)
    requires h < count && n < count && slotSize > 0 && count * slotSize <= 0x8000_0000
    ensures count * slotSize > 0
    ensures Used(h * slotSize, Around(h + n, count) * slotSize, count * slotSize) == n * slotSize
    ensures UsedByBranch(h * slotSize, Around(h + n, count) * slotSize, count * slotSize) == n * slotSize
  {
    hide Used, UsedByBranch, Add32;
    var t := Around(h + n, count);
    SlotsApart(t, count, slotSize);
    SlotsApart(h, count, slotSize);
    UsedSmallRing(h * slotSize, t * slotSize, count * slotSize);
    Distance(h, n, slotSize, count);
  }

  class Ring {
    const slotSize: nat
    const count: nat
    const mem: array<bv8>
    var head: nat
    var tail: nat
    // head's slot number, the slots the reader can still get (oldest first), every
    // slot written, every slot read, and whether a write ever took the last free slot
    ghost var h: nat
    ghost var unread: seq<seq<bv8>>
    ghost var written: seq<seq<bv8>>
    ghost var taken: seq<seq<bv8>>
    ghost var overrun: bool

    ghost predicate Shape()
      reads this
    {
      && slotSize > 0 && count * slotSize <= 0x8000_0000 && mem.Length == count * slotSize
      && h < count && |unread| < count
      && head == h * slotSize && tail == Around(h + |unread|, count) * slotSize
    }

    ghost predicate Valid()
      reads this, mem
    {
      && Shape() && Holds(mem[..], unread, h, slotSize, count)
      && (!overrun ==> written == taken + unread)
    }

    /** Attaches to memory whose tail an earlier writer left and moves head to it. */
    constructor (slotSize: nat, count: nat, mem: array<bv8>, tailSlot: nat)
      requires slotSize > 0 && count * slotSize <= 0x8000_0000 && tailSlot < count
      requires mem.Length == count * slotSize
      ensures Valid() && unread == [] && written == [] && taken == [] && !overrun
      ensures this.mem == mem && this.slotSize == slotSize && this.count == count
    {
      this.slotSize, this.count, this.mem := slotSize, count, mem;
      head, tail := tailSlot * slotSize, tailSlot * slotSize;
      h, unread, written, taken, overrun := tailSlot, [], [], [], false;
    }

    /** Queues the slot at tail, overlaid with the data. A write into the last free
        slot makes the ring look empty: everything unread is lost. */
    method Write(data: seq<bv8>)
      requires Valid()
      modifies this, mem
      ensures Valid() && taken == old(taken)
      ensures old(tail) + slotSize <= mem.Length
      ensures written == old(written) + [Overlay(old(mem[tail..tail + slotSize]), data)]
      ensures |old(unread)| + 1 < count ==> unread == old(unread) + [Overlay(old(mem[tail..tail + slotSize]), data)]
      ensures |old(unread)| + 1 == count ==> unread == []
      ensures overrun <==> old(overrun) || |old(unread)| + 1 == count
    {
      hide Around, Add32, Overlay, Holds;
      TailStep(h, |unread|, slotSize, count);
      ghost var t, before := Around(h + |unread|, count), mem[..];
      ghost var content := Overlay(mem[tail..tail + slotSize], data);
      CopyInto(mem, tail, slotSize, data);
      OtherSlots(before, mem[..], t, slotSize, count);
      assert SlotOf(mem[..], t, slotSize, count) == content;
      hide SlotOf;
      tail := Add32(tail, slotSize) % (count * slotSize);
      written := written + [content];
      if |unread| + 1 < count {
        HoldsAfterWrite(before, mem[..], unread, h, t, slotSize, count);
        unread := unread + [content];
      } else {
        overrun, unread := true, [];
        HoldsNothing(mem[..], h, slotSize, count);
      }
    }

    /** Reads nothing exactly when nothing is unread, and otherwise returns the offset
        of the oldest unread slot. */
    method Read() returns (at: nat, ok: bool)
      requires Valid()
      modifies this
      ensures Valid() && written == old(written) && overrun == old(overrun)
      ensures ok <==> old(unread) != []
      ensures ok ==> at + slotSize <= mem.Length && mem[at..at + slotSize] == old(unread)[0]
      ensures ok ==> unread == old(unread)[1..] && taken == old(taken) + [old(unread)[0]]
      ensures !ok ==> unread == [] && taken == old(taken)
    {
      hide Around, Add32, Used, UsedByBranch, Holds;
      UsedIsUnread(h, |unread|, slotSize, count);
      Multiple(|unread|, slotSize);
      var used := Used(head, tail, count * slotSize);
      if used < slotSize {
        return 0, false;
      }
      SlotsApart(h, count, slotSize);
      NextOffset(h, slotSize, count);
      HoldsAfterRead(mem[..], unread, h, slotSize, count);
      at, ok := head, true;
      assert mem[at..at + slotSize] == SlotOf(mem[..], h, slotSize, count);
      hide SlotOf;
      head := Add32(head, slotSize) % (count * slotSize);
      h, taken, unread := Around(h + 1, count), taken + [unread[0]], unread[1..];
    }
  }

  lemma HoldsNothing(mem: seq<bv8>, h: nat, slotSize: nat, count: nat)
    requires h < count && |mem| == count * slotSize
    ensures Holds(mem, [], h, slotSize, count) && Around(h + 0, count) == h
  {
  }

  lemma Multiple(n: nat, slotSize: nat)
    requires slotSize > 0
    ensures n * slotSize < slotSize <==> n == 0
  {
  }

  // A writer that fills the last slot makes the ring look empty.
  lemma FullLooksEmpty(h: nat, slotSize: nat, count: nat)
    requires h < count && slotSize > 0 && count * slotSize <= 0x8000_0000
    ensures h * slotSize < count * slotSize
    ensures Used(h * slotSize, Around(h + count, count) * slotSize, count * slotSize) == 0
  {
    hide Used;
    NextOffset(h, slotSize, count);
    UsedSmallRing(h * slotSize, h * slotSize, count * slotSize);
  }
}
