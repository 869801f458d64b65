/** A fixed-capacity circular buffer, seen as a value: the slot array, the write
    cursor and the fill count. Both the face-history window (capacity 4) and the RAM
    activity-log buffer (capacity 5) are rings of this shape: a write goes to the slot
    under the cursor, the cursor advances modulo the capacity and the count saturates
    at the capacity, so that once full each write overwrites the oldest entry. */
module Rings {

  datatype Ring<T> = Ring(slots: seq<T>, index: int, count: int)

  /** The shape every ring operation keeps: until the ring is full, the cursor equals
      the number of entries written. */
  predicate RingValid<T>(r: Ring<T>, cap: nat) {
    && cap > 0
    && |r.slots| == cap
    && 0 <= r.index < cap
    && 0 <= r.count <= cap
    && (r.count < cap ==> r.index == r.count)
  }

  /** The entries held, oldest first. */
  function Contents<T>(r: Ring<T>, cap: nat): (s: seq<T>)
    requires RingValid(r, cap)
    ensures |s| == r.count
  {
    if r.count < cap then r.slots[..r.count] else r.slots[r.index..] + r.slots[..r.index]
  }

  /** The last `n` elements of `s` (all of `s` when it is not longer than `n`). */
  function LastN<T>(s: seq<T>, n: nat): (t: seq<T>)
    ensures |t| == if |s| <= n then |s| else n
    ensures forall i :: 0 <= i < |t| ==> t[i] == s[|s| - |t| + i]
  {
    if |s| <= n then s else s[|s| - n..]
  }

  /** One write: the slot under the cursor, the cursor advanced modulo `cap`, the count
      saturated at `cap`. */
  function Push<T>(r: Ring<T>, cap: nat, x: T): (r': Ring<T>)
    requires RingValid(r, cap)
    ensures RingValid(r', cap)
    ensures r'.count == if r.count < cap then r.count + 1 else cap
  {
    Ring(r.slots[r.index := x],
         if r.index + 1 == cap then 0 else r.index + 1,
         if r.count < cap then r.count + 1 else cap)
  }

  /** Emptying a ring resets the cursor and the count; the slots keep their bytes. */
  function Empty<T>(r: Ring<T>, cap: nat): (r': Ring<T>)
    requires RingValid(r, cap)
    ensures RingValid(r', cap) && Contents(r', cap) == []
  {
    Ring(r.slots, 0, 0)
  }

  /** A write appends to the contents and, once the ring is full, drops the oldest
      entry: the ring always holds the last `cap` entries written. */
  lemma PushContents<T>(r: Ring<T>, cap: nat, x: T)
    requires RingValid(r, cap)
    ensures Contents(Push(r, cap, x), cap) == LastN(Contents(r, cap) + [x], cap)
  {
    if r.count < cap {
      PushGrowing(r, cap, x);
    } else {
      PushFull(r, cap, x);
    }
  }

  /** Below capacity a write lands after the entries held. */
  lemma PushGrowing<T>(r: Ring<T>, cap: nat, x: T)
    requires RingValid(r, cap) && r.count < cap
    ensures Contents(Push(r, cap, x), cap) == Contents(r, cap) + [x]
  {
    var r' := Push(r, cap, x);
    assert r.index == r.count;
    if r.count + 1 < cap {
      assert r'.slots[..r'.count] == r.slots[..r.count] + [x];
    } else {
      assert r'.index == 0;
      assert r'.slots[0..] + r'.slots[..0] == r'.slots;
      assert r'.slots == r.slots[..r.count] + [x];
    }
  }

  /** At capacity a write replaces the oldest entry. */
  lemma PushFull<T>(r: Ring<T>, cap: nat, x: T)
    requires RingValid(r, cap) && r.count == cap
    ensures Contents(Push(r, cap, x), cap) == (Contents(r, cap) + [x])[1..]
  {
    var r' := Push(r, cap, x);
    var before := Contents(r, cap);
    var want := (before + [x])[1..];
    if r.index + 1 < cap {
      assert r'.slots[r'.index..] == r.slots[r.index + 1..];
      assert r'.slots[..r'.index] == r.slots[..r.index] + [x];
    } else {
      assert r'.index == 0;
      assert r'.slots[0..] + r'.slots[..0] == r'.slots;
    }
    forall i | 0 <= i < cap
      ensures Contents(r', cap)[i] == want[i]
    {
      assert want[i] == (before + [x])[i + 1];
    }
  }

  /** The slot of the `j`-th newest entry (j = 0 is the newest), computed as the source
      does: one behind the cursor, then `j` further back, wrapping below zero. */
  function NewestSlot<T>(r: Ring<T>, cap: nat, j: int): (k: int)
    requires RingValid(r, cap) && 0 <= j < r.count
    ensures 0 <= k < cap
  {
    if r.index - 1 - j >= 0 then r.index - 1 - j else r.index - 1 - j + cap
  }

  /** Walking back from the cursor visits the contents newest first. */
  lemma NewestSlotIsNewest<T>(r: Ring<T>, cap: nat, j: int)
    requires RingValid(r, cap) && 0 <= j < r.count
    ensures r.slots[NewestSlot(r, cap, j)] == Contents(r, cap)[r.count - 1 - j]
  {
    if r.count == cap {
      var c := Contents(r, cap);
      var p := cap - 1 - j;
      if r.index - 1 - j >= 0 {
        assert p >= cap - r.index;
        assert c[p] == r.slots[..r.index][p - (cap - r.index)];
      } else {
        assert p < cap - r.index;
        assert c[p] == r.slots[r.index..][p];
      }
    }
  }
}
