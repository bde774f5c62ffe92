// The allocation part of a memory context: one slot, or a list of slots that doubles when it is full.
module MemAlloc {
  import opened Options

  const INITIAL_SIZE := 4
  const HEADER_SIZE := 8
  const UINT32_LIMIT := 0x1_0000_0000

  // The header in front of an allocation. `address` is the pointer itself; the header remembers its slot.
  datatype Alloc = Alloc(address: int, allocIdx: nat, size: nat)

  type Slots = seq<Option<Alloc>>

  ghost function Live(slots: Slots): set<Alloc> {
    set i | 0 <= i < |slots| && slots[i].Some? :: slots[i].value
  }

  // Number of occupied slots.
  ghost function Count(slots: Slots): nat {
    if slots == [] then 0 else Count(slots[..|slots| - 1]) + if slots[|slots| - 1].Some? then 1 else 0
  }

  ghost predicate Indexed(slots: Slots) {
    forall i {:trigger slots[i]} :: 0 <= i < |slots| && slots[i].Some? ==> slots[i].value.allocIdx == i
  }

  // The slots are as many as the allocations in them, since each allocation names its own slot.
  lemma {:induction false} CountIsLive(slots: Slots)
    requires Indexed(slots)
    ensures Count(slots) == |Live(slots)|
  {
    if slots != [] {
      var n := |slots| - 1;
      var rest := slots[..n];
      CountIsLive(rest);
      if slots[n].Some? {
        assert Live(slots) == Live(rest) + {slots[n].value};
        assert slots[n].value !in Live(rest);
      } else {
        assert Live(slots) == Live(rest);
      }
    }
  }

  lemma {:induction false} CountUpdate(slots: Slots, i: nat, v: Option<Alloc>)
    requires i < |slots|
    ensures Count(slots[i := v]) == Count(slots) - (if slots[i].Some? then 1 else 0) + if v.Some? then 1 else 0
  {
    var n := |slots| - 1;
    if i == n {
      assert slots[i := v][..n] == slots[..n];
    } else {
      assert slots[i := v][..n] == slots[..n][i := v];
      CountUpdate(slots[..n], i, v);
    }
  }

  lemma {:induction false} CountFull(slots: Slots)
    requires forall i :: 0 <= i < |slots| ==> slots[i].Some?
    ensures Count(slots) == |slots|
  {
    if slots != [] {
      CountFull(slots[..|slots| - 1]);
    }
  }

  lemma {:induction false} CountGrow(slots: Slots, k: nat)
    ensures Count(slots + seq(k, _ => None)) == Count(slots)
  {
    if k > 0 {
      var more: Slots := slots + seq(k, _ => None);
      assert more[..|more| - 1] == slots + seq(k - 1, _ => None);
      CountGrow(slots, k - 1);
    } else {
      assert slots + seq(0, _ => None) == slots;
    }
  }

  lemma LiveGrow(slots: Slots, k: nat)
    ensures Live(slots + seq(k, _ => None)) == Live(slots)
  {
    var more: Slots := slots + seq(k, _ => None);
    forall a | a in Live(slots) ensures a in Live(more) {
      var i :| 0 <= i < |slots| && slots[i] == Some(a);
      assert more[i] == slots[i];
    }
  }

  // A list with a free slot holds fewer allocations than slots.
  lemma {:induction false} CountBelow(slots: Slots, i: nat)
    requires i < |slots| && slots[i].None?
    ensures Count(slots) < |slots|
  {
    var n := |slots| - 1;
    if i < n {
      CountBelow(slots[..n], i);
    } else {
      CountAtMost(slots[..n]);
    }
  }

  lemma {:induction false} CountAtMost(slots: Slots)
    ensures Count(slots) <= |slots|
  {
    if slots != [] {
      CountAtMost(slots[..|slots| - 1]);
    }
  }

  lemma LiveUpdate(slots: Slots, i: nat, v: Option<Alloc>)
    requires i < |slots| && Indexed(slots) && (v.Some? ==> v.value.allocIdx == i)
    ensures Indexed(slots[i := v])
    ensures Live(slots[i := v])
              == Live(slots) - (if slots[i].Some? then {slots[i].value} else {}) + (if v.Some? then {v.value} else {})
  {
    var slots' := slots[i := v];
    forall a | a in Live(slots) && (slots[i].Some? ==> a != slots[i].value) ensures a in Live(slots') {
      var k :| 0 <= k < |slots| && slots[k] == Some(a);
      assert slots'[k] == slots[k];
    }
    if v.Some? {
      assert slots'[i].Some?;
    }
  }

  class AllocMany {
    var initialized: bool
    var list: Slots
    var freeIdx: nat
    // The most allocations that were ever live at once.
    ghost var peak: nat

    ghost predicate Valid()
      reads this
    {
      && Indexed(list)
      && freeIdx <= |list|
      && (forall i :: 0 <= i < freeIdx ==> list[i].Some?)
      && (initialized ==> INITIAL_SIZE <= |list|)
      && (!initialized ==> list == [])
      && Count(list) <= peak
      && (|list| <= INITIAL_SIZE || |list| <= 2 * peak)
    }

    constructor ()
      ensures Valid() && Live(list) == {} && peak == 0
    {
      initialized, list, freeIdx, peak := false, [], 0, 0;
    }

    // Find a free slot, growing the list when there is none.
    method FindSlot()
      requires Valid()
      modifies this`initialized, this`list, this`freeIdx
      ensures Valid() && initialized
      ensures freeIdx < |list| && list[freeIdx].None?
      ensures Live(list) == old(Live(list)) && Count(list) == old(Count(list))
      ensures |list| == if !old(initialized) then INITIAL_SIZE
                        else if old(Count(list)) == |old(list)| then 2 * |old(list)| else |old(list)|
    {
      ghost var before := list;
      if !initialized {
        list := seq(INITIAL_SIZE, _ => None);
        CountGrow([], INITIAL_SIZE);
        assert [] + seq(INITIAL_SIZE, _ => None) == list;
        initialized := true;
      } else {
        while freeIdx < |list|
          invariant freeIdx <= |list| == |before| && list == before && initialized
          invariant forall i :: 0 <= i < freeIdx ==> list[i].Some?
        {
          if list[freeIdx].None? {
            CountBelow(list, freeIdx);
            return;
          }
          freeIdx := freeIdx + 1;
        }
        CountFull(list);
        list := list + seq(|list|, _ => None);
        CountGrow(before, |before|);
        LiveGrow(before, |before|);
      }
    }

    // Put an allocation of `size` bytes at `address` in the first free slot.
    method New(size: nat, address: int) returns (result: Alloc)
      requires Valid()
      modifies this
      ensures Valid()
      ensures result.address == address && result.size == (HEADER_SIZE + size) % UINT32_LIMIT
      ensures result !in old(Live(list)) && Live(list) == old(Live(list)) + {result}
      ensures result.allocIdx < |list| && list[result.allocIdx] == Some(result)
      ensures forall i :: 0 <= i < result.allocIdx ==> list[i].Some?
      ensures peak == if |Live(list)| > old(peak) then |Live(list)| else old(peak)
      // The list grows only when every slot is taken, and then to twice its size
      ensures |list| == if !old(initialized) then INITIAL_SIZE
                        else if |old(Live(list))| == |old(list)| then 2 * |old(list)| else |old(list)|
    {
      CountIsLive(list);
      FindSlot();
      ghost var before := list;
      result := Alloc(address, freeIdx, (HEADER_SIZE + size) % UINT32_LIMIT);
      list := list[freeIdx := Some(result)];
      // All slots below the hint are still occupied
      freeIdx := freeIdx + 1;
      CountUpdate(before, result.allocIdx, Some(result));
      LiveUpdate(before, result.allocIdx, Some(result));
      CountIsLive(list);
      if Count(list) > peak {
        peak := Count(list);
      }
    }

    // Replace an allocation that may have moved; it keeps its slot.
    method Resize(alloc: Alloc, size: nat, address: int) returns (result: Alloc)
      requires Valid() && alloc in Live(list)
      modifies this`list
      ensures Valid()
      ensures result == Alloc(address, alloc.allocIdx, (HEADER_SIZE + size) % UINT32_LIMIT)
      ensures Live(list) == old(Live(list)) - {alloc} + {result} && |list| == |old(list)|
      ensures |Live(list)| == |old(Live(list))|
    {
      ghost var before := list;
      ghost var k :| 0 <= k < |list| && list[k] == Some(alloc);
      result := Alloc(address, alloc.allocIdx, (HEADER_SIZE + size) % UINT32_LIMIT);
      list := list[alloc.allocIdx := Some(result)];
      CountUpdate(before, alloc.allocIdx, Some(result));
      LiveUpdate(before, alloc.allocIdx, Some(result));
      CountIsLive(before);
      CountIsLive(list);
    }

    method Free(alloc: Alloc)
      requires Valid() && alloc in Live(list)
      modifies this`list, this`freeIdx
      ensures Valid()
      ensures Live(list) == old(Live(list)) - {alloc} && |list| == |old(list)|
      ensures list[alloc.allocIdx].None?
    {
      ghost var before := list;
      ghost var k :| 0 <= k < |list| && list[k] == Some(alloc);
      // Otherwise the emptied slot would lie below the hint
      if alloc.allocIdx < freeIdx {
        freeIdx := alloc.allocIdx;
      }
      list := list[alloc.allocIdx := None];
      CountUpdate(before, alloc.allocIdx, None);
      LiveUpdate(before, alloc.allocIdx, None);
    }
  }
}
