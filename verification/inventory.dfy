/** `ItemStack::LoadContainerInventory`: the walk over a container's standard
    inventory slots followed by its dropped-item references, producing one
    owned `ItemStack` per accepted entry.

    Entry ownership is tracked through allocation identities: every entry the
    walk obtains (from `GetInventoryEntryAt`, or by `new` for a dropped item)
    takes the next identity `next`, so the identities obtained by one walk are
    exactly `start, start + 1, ..., next - 1`. */
module Inventory {
  import opened Wrappers
  import opened Forms
  import opened ItemStacks

  /** `GetInventoryEntryAt(changes, i)`: the i-th slot, null past the end. */
  function EntryAt(slots: seq<Option<EntryData>>, i: nat): (r: Option<EntryData>)
    ensures i < |slots| ==> r == slots[i]
    ensures i >= |slots| ==> r.None?
  {
    if i < |slots| then slots[i] else None
  }

  /** The entries the slot walk obtains: the longest run of non-null slots
      from index 0. */
  function SlotPrefix(slots: seq<Option<EntryData>>): (p: seq<EntryData>)
    ensures |p| <= |slots|
  {
    if |slots| == 0 || slots[0].None? then []
    else [slots[0].value] + SlotPrefix(slots[1..])
  }

  /** `SlotPrefix` is the run of present slots up to the first null one (or
      the end): every slot before it holds the corresponding entry, and the
      slot at its end is null. */
  lemma {:induction false} SlotPrefixIsLeadingRun(slots: seq<Option<EntryData>>)
    ensures var p := SlotPrefix(slots);
      && (forall i :: 0 <= i < |p| ==> slots[i] == Some(p[i]))
      && EntryAt(slots, |p|).None?
  {
    if |slots| > 0 && slots[0].Some? {
      SlotPrefixIsLeadingRun(slots[1..]);
      var p := SlotPrefix(slots);
      forall i | 0 < i < |p|
        ensures slots[i] == Some(p[i])
      {
        assert slots[i] == slots[1..][i - 1];
      }
    }
  }

  /** What the slot walk finds at index `i` of the run. */
  lemma SlotPrefixAt(slots: seq<Option<EntryData>>, i: nat)
    requires i <= |SlotPrefix(slots)|
    ensures i < |SlotPrefix(slots)| ==> EntryAt(slots, i) == Some(SlotPrefix(slots)[i])
    ensures i == |SlotPrefix(slots)| ==> EntryAt(slots, i).None?
  {
    SlotPrefixIsLeadingRun(slots);
  }

  /** The identities `lo, lo + 1, ..., hi - 1`, in order. */
  function IdRange(lo: EntryId, hi: EntryId): (r: seq<EntryId>)
    ensures |r| == if hi <= lo then 0 else hi - lo
    decreases hi - lo
  {
    if hi <= lo then [] else IdRange(lo, hi - 1) + [hi - 1]
  }

  /** Reference definition of the entries a filter keeps, in order. */
  function Accepted(entries: seq<EntryData>, filter: Form -> bool): seq<EntryData>
  {
    if |entries| == 0 then []
    else
      var last := entries[|entries| - 1];
      Accepted(entries[..|entries| - 1], filter) + (if filter(last.item) then [last] else [])
  }

  /** The identities of the slot entries the filter rejects, when the i-th
      slot entry was allocated with identity `start + i`. */
  function RejectedIds(prefix: seq<EntryData>, filter: Form -> bool, start: EntryId): seq<EntryId>
  {
    if |prefix| == 0 then []
    else
      var last := |prefix| - 1;
      RejectedIds(prefix[..last], filter, start) + (if filter(prefix[last].item) then [] else [start + last])
  }

  /** The entries held by a collection of stacks, in order. */
  function Entries(stacks: seq<ItemStack>): (r: seq<EntryData>)
    ensures |r| == |stacks|
    ensures forall i :: 0 <= i < |stacks| ==> r[i] == stacks[i].entry.data
  {
    seq(|stacks|, i requires 0 <= i < |stacks| => stacks[i].entry.data)
  }

  /** True when the stacks own pairwise distinct entries, identities rising
      in collection order, all within `[lo, hi)`. */
  ghost predicate IdsRisingWithin(stacks: seq<ItemStack>, lo: EntryId, hi: EntryId)
  {
    && (forall i :: 0 <= i < |stacks| ==> lo <= stacks[i].entry.id < hi)
    && (forall i, j :: 0 <= i < j < |stacks| ==> stacks[i].entry.id < stacks[j].entry.id)
  }

  /** The stacks the slot walk creates for `prefix`: one per accepted entry,
      standard-slot origin, the i-th entry carrying identity `start + i`. */
  function SlotStacks(prefix: seq<EntryData>, filter: Form -> bool, container: RefHandle, start: EntryId): seq<ItemStack>
  {
    if |prefix| == 0 then []
    else
      var last := |prefix| - 1;
      var init := SlotStacks(prefix[..last], filter, container, start);
      init + (if filter(prefix[last].item) then [NewStack(container, OwnedEntry(start + last, prefix[last]), None)] else [])
  }

  /** What one dropped-item handle contributes: nothing when the handle is
      stale, the reference has no base object or the filter rejects it;
      otherwise a new entry of that object with the reference's count and no
      ownership override. */
  function AcceptDrop(world: World, handle: RefHandle, filter: Form -> bool): (r: Option<EntryData>)
    ensures r.Some? <==>
      handle in world && world[handle].baseObject.Some? && filter(world[handle].baseObject.value)
    ensures r.Some? ==>
      r.value == EntryData(world[handle].baseObject.value, world[handle].count, None)
  {
    match Resolve(world, handle)
    case None => None
    case Some(reference) =>
      match reference.baseObject
      case None => None
      case Some(item) => if filter(item) then Some(EntryData(item, reference.count, None)) else None
  }

  /** Reference definition of the dropped-item handles that produce a record,
      in order, duplicates kept. */
  function AcceptedHandles(handles: seq<RefHandle>, world: World, filter: Form -> bool): seq<RefHandle>
  {
    if |handles| == 0 then []
    else
      var last := handles[|handles| - 1];
      AcceptedHandles(handles[..|handles| - 1], world, filter)
        + (if AcceptDrop(world, last, filter).Some? then [last] else [])
  }

  /** The stacks the dropped-item walk creates: one per accepted handle,
      drop origin, the i-th record carrying identity `start + i`. */
  function DropStacks(handles: seq<RefHandle>, world: World, filter: Form -> bool, container: RefHandle, start: EntryId): seq<ItemStack>
  {
    if |handles| == 0 then []
    else
      var init := DropStacks(handles[..|handles| - 1], world, filter, container, start);
      var last := handles[|handles| - 1];
      init + match AcceptDrop(world, last, filter)
             case None => []
             case Some(entry) => [NewStack(container, OwnedEntry(start + |init|, entry), Some(last))]
  }

  /** The handles of the container's dropped-item list; none when it has no
      such list. */
  function DroppedHandles(container: Ref): seq<RefHandle>
  {
    match container.droppedItems
    case None => []
    case Some(handles) => handles
  }

  /** Reference definition of the whole walk: nothing for a null container;
      otherwise the slot records followed by the drop records. */
  function Snapshot(container: Option<Ref>, world: World, filter: Form -> bool, start: EntryId): seq<ItemStack>
  {
    match container
    case None => []
    case Some(c) =>
      var prefix := SlotPrefix(c.slots);
      SlotStacks(prefix, filter, c.handle, start)
        + DropStacks(DroppedHandles(c), world, filter, c.handle, start + |prefix|)
  }

  /** The slot walk of `container`: entries are requested at index 0, 1, ...
      until the first null one; a rejected entry is deleted at once, an
      accepted one is wrapped in a stack that owns it. */
  method WalkSlots(container: Ref, filter: Form -> bool, start: EntryId)
    returns (stacks: seq<ItemStack>, next: EntryId, ghost deleted: seq<EntryId>)
    ensures next == start + |SlotPrefix(container.slots)|
    ensures stacks == SlotStacks(SlotPrefix(container.slots), filter, container.handle, start)
    ensures deleted == RejectedIds(SlotPrefix(container.slots), filter, start)
  {
    ghost var prefix := SlotPrefix(container.slots);
    stacks, next, deleted := [], start, [];
    var i := 0;
    while true
      invariant 0 <= i <= |prefix|
      invariant next == start + i
      invariant stacks == SlotStacks(prefix[..i], filter, container.handle, start)
      invariant deleted == RejectedIds(prefix[..i], filter, start)
      decreases |container.slots| - i
    {
      var slot := EntryAt(container.slots, i);
      SlotPrefixAt(container.slots, i);
      if slot.None? {
        break;
      }
      SlotStep(prefix, i, filter, container.handle, start);
      var entry := OwnedEntry(next, slot.value);
      if !filter(entry.data.item) {
        deleted := deleted + [entry.id];
      } else {
        stacks := stacks + [NewStack(container.handle, entry, None)];
      }
      next := next + 1;
      i := i + 1;
    }
    assert prefix[..i] == prefix;
  }

  /** The dropped-item walk: each live handle whose base object the filter
      accepts yields a stack owning a newly allocated entry and keeping the
      handle; nothing is obtained, so nothing is deleted, for the others. */
  method WalkDrops(handles: seq<RefHandle>, world: World, filter: Form -> bool, container: RefHandle, start: EntryId)
    returns (stacks: seq<ItemStack>, next: EntryId)
    ensures stacks == DropStacks(handles, world, filter, container, start)
    ensures next == start + |stacks|
  {
    stacks, next := [], start;
    for k := 0 to |handles|
      invariant stacks == DropStacks(handles[..k], world, filter, container, start)
      invariant next == start + |stacks|
    {
      DropStep(handles, k, world, filter, container, start);
      var reference := Resolve(world, handles[k]);
      if reference.None? {
        continue;
      }
      var item := reference.value.baseObject;
      if item.None? || !filter(item.value) {
        continue;
      }
      var entry := OwnedEntry(next, EntryData(item.value, reference.value.count, None));
      stacks := stacks + [NewStack(container, entry, Some(handles[k]))];
      next := next + 1;
    }
    assert handles[..|handles|] == handles;
  }

  /** The walk. `start` is the allocator's next identity on entry and `next`
      on exit; `deleted` is the trace of entries deleted during the walk.
      Every entry the walk obtains is deleted exactly once: either during the
      walk or by the destructor of the one stack that owns it. */
  method LoadContainerInventory(container: Option<Ref>, world: World, filter: Form -> bool, start: EntryId)
    returns (inventory: seq<ItemStack>, next: EntryId, ghost deleted: seq<EntryId>)
    ensures container.None? ==> inventory == [] && next == start && deleted == []
    ensures inventory == Snapshot(container, world, filter, start)
    ensures container.Some? ==> deleted == RejectedIds(SlotPrefix(container.value.slots), filter, start)
    ensures forall id :: multiset(deleted)[id] + Released(inventory)[id] == if start <= id < next then 1 else 0
  {
    if container.None? {
      return [], start, [];
    }
    var c := container.value;
    var slotStacks, mid;
    slotStacks, mid, deleted := WalkSlots(c, filter, start);
    var dropStacks;
    dropStacks, next := WalkDrops(DroppedHandles(c), world, filter, c.handle, mid);
    inventory := slotStacks + dropStacks;
    SnapshotOfSome(c, world, filter, start, mid);
    WalkAccounting(SlotPrefix(c.slots), DroppedHandles(c), world, filter, c.handle, start, mid, next, deleted, slotStacks, dropStacks);
  }

  /** The ownership account of a whole walk, from the accounts of its two
      phases. */
  lemma WalkAccounting(prefix: seq<EntryData>, handles: seq<RefHandle>, world: World, filter: Form -> bool,
                       container: RefHandle, start: EntryId, mid: EntryId, next: EntryId,
                       deleted: seq<EntryId>, slotStacks: seq<ItemStack>, dropStacks: seq<ItemStack>)
    requires mid == start + |prefix|
    requires slotStacks == SlotStacks(prefix, filter, container, start)
    requires deleted == RejectedIds(prefix, filter, start)
    requires dropStacks == DropStacks(handles, world, filter, container, mid)
    requires next == mid + |dropStacks|
    ensures forall id :: multiset(deleted)[id] + Released(slotStacks + dropStacks)[id] == if start <= id < next then 1 else 0
  {
    SlotPhaseAccount(prefix, filter, container, start, mid);
    DropPhaseAccount(handles, world, filter, container, mid, next, dropStacks);
    ReleasedAppend(slotStacks, dropStacks);
    IdRangeSplit(start, mid, next);
    ExactlyOnce(multiset(deleted), Released(slotStacks + dropStacks), start, next);
  }

  /** The slot phase's account: the identities `start, ..., mid - 1` it
      obtained are each deleted or owned by one record. */
  lemma SlotPhaseAccount(prefix: seq<EntryData>, filter: Form -> bool, container: RefHandle, start: EntryId, mid: EntryId)
    requires mid == start + |prefix|
    ensures multiset(RejectedIds(prefix, filter, start)) + Released(SlotStacks(prefix, filter, container, start))
         == multiset(IdRange(start, mid))
  {
    SlotAccounting(prefix, filter, start, mid);
    SlotStacksOwnedIds(prefix, filter, container, start);
  }

  /** The drop phase's account: the identities `mid, ..., next - 1` it
      allocated are each owned by one record. */
  lemma DropPhaseAccount(handles: seq<RefHandle>, world: World, filter: Form -> bool, container: RefHandle,
                         mid: EntryId, next: EntryId, stacks: seq<ItemStack>)
    requires stacks == DropStacks(handles, world, filter, container, mid)
    requires next == mid + |stacks|
    ensures Released(stacks) == multiset(IdRange(mid, next))
  {
    DropStacksOwnedIds(handles, world, filter, container, mid);
  }

  /** Two accounts that together make up `[lo, hi)` hold each of its
      identities exactly once between them, and nothing else. */
  lemma ExactlyOnce(a: multiset<EntryId>, b: multiset<EntryId>, lo: EntryId, hi: EntryId)
    requires a + b == multiset(IdRange(lo, hi))
    ensures forall id :: a[id] + b[id] == if lo <= id < hi then 1 else 0
  {
    IdRangeOnce(lo, hi);
    forall id
      ensures a[id] + b[id] == if lo <= id < hi then 1 else 0
    {
      assert (a + b)[id] == multiset(IdRange(lo, hi))[id];
    }
  }

  /** Identities of the entries the slot records own. */
  function SlotOwnedIds(prefix: seq<EntryData>, filter: Form -> bool, start: EntryId): seq<EntryId>
  {
    if |prefix| == 0 then []
    else
      var last := |prefix| - 1;
      SlotOwnedIds(prefix[..last], filter, start) + (if filter(prefix[last].item) then [start + last] else [])
  }

  lemma {:induction false} SlotStacksOwnedIds(prefix: seq<EntryData>, filter: Form -> bool, container: RefHandle, start: EntryId)
    ensures OwnedIds(SlotStacks(prefix, filter, container, start)) == SlotOwnedIds(prefix, filter, start)
  {
    if |prefix| > 0 {
      var last := |prefix| - 1;
      SlotStacksOwnedIds(prefix[..last], filter, container, start);
      OwnedIdsAppend(SlotStacks(prefix[..last], filter, container, start),
        if filter(prefix[last].item) then [NewStack(container, OwnedEntry(start + last, prefix[last]), None)] else []);
    }
  }

  /** The identities the slot walk accounts for: those it deleted and those
      its records own. */
  ghost function SlotAccount(prefix: seq<EntryData>, filter: Form -> bool, start: EntryId): multiset<EntryId>
  {
    multiset(RejectedIds(prefix, filter, start)) + multiset(SlotOwnedIds(prefix, filter, start))
  }

  /** Each slot entry is either deleted or owned, not both. */
  lemma SlotAccountStep(prefix: seq<EntryData>, filter: Form -> bool, start: EntryId)
    requires |prefix| > 0
    ensures SlotAccount(prefix, filter, start)
         == SlotAccount(prefix[..|prefix| - 1], filter, start) + multiset{start + |prefix| - 1}
  {
  }

  /** The slot walk deletes or hands to a stack each entry it obtains, and
      nothing else: the identities `start, ..., hi - 1` of the slot entries
      are accounted for exactly once. */
  lemma {:induction false} SlotAccounting(prefix: seq<EntryData>, filter: Form -> bool, start: EntryId, hi: EntryId)
    requires hi == start + |prefix|
    ensures SlotAccount(prefix, filter, start) == multiset(IdRange(start, hi))
  {
    if |prefix| > 0 {
      SlotAccounting(prefix[..|prefix| - 1], filter, start, hi - 1);
      SlotAccountStep(prefix, filter, start);
    }
  }

  /** The drop records own freshly allocated entries with consecutive
      identities. */
  lemma {:induction false} DropStacksOwnedIds(handles: seq<RefHandle>, world: World, filter: Form -> bool, container: RefHandle, start: EntryId)
    ensures var stacks := DropStacks(handles, world, filter, container, start);
      OwnedIds(stacks) == IdRange(start, start + |stacks|)
  {
    if |handles| > 0 {
      var init := DropStacks(handles[..|handles| - 1], world, filter, container, start);
      DropStacksOwnedIds(handles[..|handles| - 1], world, filter, container, start);
      var last := handles[|handles| - 1];
      match AcceptDrop(world, last, filter)
      case None =>
      case Some(entry) =>
        var stack := NewStack(container, OwnedEntry(start + |init|, entry), Some(last));
        OwnedIdsAppend(init, [stack]);
    }
  }

  /** The walk of an existing container, with the identity the drop
      records start from named. */
  lemma SnapshotOfSome(c: Ref, world: World, filter: Form -> bool, start: EntryId, mid: EntryId)
    requires mid == start + |SlotPrefix(c.slots)|
    ensures Snapshot(Some(c), world, filter, start)
         == SlotStacks(SlotPrefix(c.slots), filter, c.handle, start)
          + DropStacks(DroppedHandles(c), world, filter, c.handle, mid)
  {
    var prefix := SlotPrefix(c.slots);
    assert Snapshot(Some(c), world, filter, start)
        == SlotStacks(prefix, filter, c.handle, start) + DropStacks(DroppedHandles(c), world, filter, c.handle, start + |prefix|);
  }

  /** One slot more: the records and deletions of the first `i + 1` slot
      entries extend those of the first `i`. */
  lemma SlotStep(prefix: seq<EntryData>, i: nat, filter: Form -> bool, container: RefHandle, start: EntryId)
    requires i < |prefix|
    ensures SlotStacks(prefix[..i + 1], filter, container, start)
         == SlotStacks(prefix[..i], filter, container, start)
          + (if filter(prefix[i].item) then [NewStack(container, OwnedEntry(start + i, prefix[i]), None)] else [])
    ensures RejectedIds(prefix[..i + 1], filter, start)
         == RejectedIds(prefix[..i], filter, start) + (if filter(prefix[i].item) then [] else [start + i])
  {
    assert prefix[..i + 1][..i] == prefix[..i];
  }

  /** One dropped-item handle more. */
  lemma DropStep(handles: seq<RefHandle>, k: nat, world: World, filter: Form -> bool, container: RefHandle, start: EntryId)
    requires k < |handles|
    ensures var init := DropStacks(handles[..k], world, filter, container, start);
      DropStacks(handles[..k + 1], world, filter, container, start)
        == init + match AcceptDrop(world, handles[k], filter)
                  case None => []
                  case Some(entry) => [NewStack(container, OwnedEntry(start + |init|, entry), Some(handles[k]))]
  {
    assert handles[..k + 1][..k] == handles[..k];
  }

  lemma {:induction false} IdRangeSplit(lo: EntryId, mid: EntryId, hi: EntryId)
    requires lo <= mid <= hi
    ensures IdRange(lo, hi) == IdRange(lo, mid) + IdRange(mid, hi)
    decreases hi - mid
  {
    if mid < hi {
      IdRangeSplit(lo, mid, hi - 1);
    }
  }

  /** Each identity of `[lo, hi)` occurs in `IdRange(lo, hi)` exactly once,
      and no other identity occurs. */
  lemma {:induction false} IdRangeOnce(lo: EntryId, hi: EntryId)
    ensures forall id :: multiset(IdRange(lo, hi))[id] == if lo <= id < hi then 1 else 0
    decreases hi - lo
  {
    if lo < hi {
      IdRangeOnce(lo, hi - 1);
      assert IdRange(lo, hi) == IdRange(lo, hi - 1) + [hi - 1];
    }
  }

  /** The entries of two collections of stacks, one after the other. */
  lemma EntriesAppend(stacks: seq<ItemStack>, more: seq<ItemStack>)
    ensures Entries(stacks + more) == Entries(stacks) + Entries(more)
  {
    assert forall i :: 0 <= i < |more| ==> (stacks + more)[|stacks| + i] == more[i];
  }

  /** The slot records hold exactly the accepted slot entries, in slot
      order, with nothing dropped and nothing duplicated. */
  lemma {:induction false} SlotStacksHoldAccepted(prefix: seq<EntryData>, filter: Form -> bool, container: RefHandle, start: EntryId)
    ensures Entries(SlotStacks(prefix, filter, container, start)) == Accepted(prefix, filter)
  {
    if |prefix| > 0 {
      var last := |prefix| - 1;
      SlotStacksHoldAccepted(prefix[..last], filter, container, start);
      EntriesAppend(SlotStacks(prefix[..last], filter, container, start),
        if filter(prefix[last].item) then [NewStack(container, OwnedEntry(start + last, prefix[last]), None)] else []);
    }
  }

  /** Every slot record comes from the container's standard slots (no drop
      reference), holds an object the filter accepts, has no payload yet, and
      the records own distinct entries with identities rising in
      `[start, hi)`. */
  lemma {:induction false} SlotStacksOrigin(prefix: seq<EntryData>, filter: Form -> bool, container: RefHandle, start: EntryId, hi: EntryId)
    requires hi == start + |prefix|
    ensures var stacks := SlotStacks(prefix, filter, container, start);
      && (forall i :: 0 <= i < |stacks| ==>
            && stacks[i].dropRef.None?
            && stacks[i].container == container
            && stacks[i].data.None?
            && filter(stacks[i].Object()))
      && IdsRisingWithin(stacks, start, hi)
  {
    if |prefix| > 0 {
      var last := |prefix| - 1;
      SlotStacksOrigin(prefix[..last], filter, container, start, hi - 1);
    }
  }

  /** The drop records correspond one to one, in order, to the accepted
      handles: the i-th keeps the i-th accepted handle, owns the entry built
      from that reference, and carries identity `start + i`. Duplicate handles
      give duplicate records. */
  lemma {:induction false} DropStacksMatchHandles(handles: seq<RefHandle>, world: World, filter: Form -> bool, container: RefHandle, start: EntryId)
    ensures var stacks := DropStacks(handles, world, filter, container, start);
      var accepted := AcceptedHandles(handles, world, filter);
      && |stacks| == |accepted|
      && forall i :: 0 <= i < |stacks| ==>
           && stacks[i].dropRef == Some(accepted[i])
           && stacks[i].container == container
           && stacks[i].data.None?
           && stacks[i].entry.id == start + i
           && AcceptDrop(world, accepted[i], filter) == Some(stacks[i].entry.data)
  {
    if |handles| > 0 {
      DropStacksMatchHandles(handles[..|handles| - 1], world, filter, container, start);
    }
  }

  /** A handle listed twice yields two records of the same reference, owning
      two distinct entries: the walk does not deduplicate. */
  lemma DuplicateDropsKept(h: RefHandle, world: World, filter: Form -> bool, container: RefHandle, start: EntryId)
    requires AcceptDrop(world, h, filter).Some?
    ensures var stacks := DropStacks([h, h], world, filter, container, start);
      && |stacks| == 2
      && stacks[0].dropRef == stacks[1].dropRef == Some(h)
      && stacks[0].entry.data == stacks[1].entry.data
      && stacks[0].entry.id != stacks[1].entry.id
  {
    assert [h, h][..1] == [h];
    assert [h][..0] == [];
    assert AcceptedHandles([h], world, filter) == [h];
    assert AcceptedHandles([h, h], world, filter) == [h, h];
    DropStacksMatchHandles([h, h], world, filter, container, start);
  }

  /** The shape of a snapshot of an existing container: first one record per
      accepted slot entry, in slot order and without a drop reference, then
      one record per accepted dropped-item handle, in list order and keeping
      that handle. Every record points at the container and has no payload. */
  lemma SnapshotShape(c: Ref, world: World, filter: Form -> bool, start: EntryId, prefix: seq<EntryData>, mid: EntryId,
                      slotEntries: seq<EntryData>, drops: seq<RefHandle>)
    requires prefix == SlotPrefix(c.slots) && mid == start + |prefix|
    requires slotEntries == Accepted(prefix, filter)
    requires drops == AcceptedHandles(DroppedHandles(c), world, filter)
    ensures var stacks := Snapshot(Some(c), world, filter, start);
      && |stacks| == |slotEntries| + |drops|
      && Entries(stacks[..|slotEntries|]) == slotEntries
    ensures var stacks := Snapshot(Some(c), world, filter, start);
      forall i :: 0 <= i < |slotEntries| ==> stacks[i].dropRef.None?
    ensures var stacks := Snapshot(Some(c), world, filter, start);
      forall i :: 0 <= i < |drops| ==> stacks[|slotEntries| + i].dropRef == Some(drops[i])
    ensures var stacks := Snapshot(Some(c), world, filter, start);
      forall i :: 0 <= i < |stacks| ==> stacks[i].container == c.handle && stacks[i].data.None?
  {
    var stacks := Snapshot(Some(c), world, filter, start);
    SnapshotSlotPart(c, world, filter, start, prefix, mid, slotEntries, |drops|, stacks);
    SnapshotDropPart(c, world, filter, start, prefix, mid, |slotEntries|, drops, stacks);
  }

  /** The slot part of a snapshot: the leading records hold the accepted
      slot entries and have no drop reference. */
  lemma SnapshotSlotPart(c: Ref, world: World, filter: Form -> bool, start: EntryId, prefix: seq<EntryData>, mid: EntryId,
                         slotEntries: seq<EntryData>, dropCount: nat, stacks: seq<ItemStack>)
    requires prefix == SlotPrefix(c.slots) && mid == start + |prefix|
    requires slotEntries == Accepted(prefix, filter)
    requires dropCount == |AcceptedHandles(DroppedHandles(c), world, filter)|
    requires stacks == Snapshot(Some(c), world, filter, start)
    ensures |stacks| == |slotEntries| + dropCount
    ensures Entries(stacks[..|slotEntries|]) == slotEntries
    ensures forall i :: 0 <= i < |slotEntries| ==>
      stacks[i].dropRef.None? && stacks[i].container == c.handle && stacks[i].data.None?
  {
    var slotStacks := SlotStacks(prefix, filter, c.handle, start);
    var dropStacks := DropStacks(DroppedHandles(c), world, filter, c.handle, mid);
    assert stacks == slotStacks + dropStacks by {
      SnapshotOfSome(c, world, filter, start, mid);
    }
    assert Entries(slotStacks) == slotEntries by {
      SlotStacksHoldAccepted(prefix, filter, c.handle, start);
    }
    assert forall i :: 0 <= i < |slotStacks| ==>
      slotStacks[i].dropRef.None? && slotStacks[i].container == c.handle && slotStacks[i].data.None?
    by {
      SlotStacksOrigin(prefix, filter, c.handle, start, mid);
    }
    assert |dropStacks| == dropCount by {
      DropStacksMatchHandles(DroppedHandles(c), world, filter, c.handle, mid);
    }
    ConcatSlotShape(slotStacks, dropStacks, slotEntries, c.handle);
  }

  /** The drop part of a snapshot: after the slot records, the i-th record
      keeps the i-th accepted handle. */
  lemma SnapshotDropPart(c: Ref, world: World, filter: Form -> bool, start: EntryId, prefix: seq<EntryData>, mid: EntryId,
                         slotCount: nat, drops: seq<RefHandle>, stacks: seq<ItemStack>)
    requires prefix == SlotPrefix(c.slots) && mid == start + |prefix|
    requires slotCount == |Accepted(prefix, filter)|
    requires drops == AcceptedHandles(DroppedHandles(c), world, filter)
    requires stacks == Snapshot(Some(c), world, filter, start)
    ensures |stacks| == slotCount + |drops|
    ensures forall i :: 0 <= i < |drops| ==>
      stacks[slotCount + i].dropRef == Some(drops[i]) && stacks[slotCount + i].container == c.handle
      && stacks[slotCount + i].data.None?
    ensures forall i :: slotCount <= i < |stacks| ==> stacks[i].container == c.handle && stacks[i].data.None?
  {
    var slotStacks := SlotStacks(prefix, filter, c.handle, start);
    var dropStacks := DropStacks(DroppedHandles(c), world, filter, c.handle, mid);
    assert stacks == slotStacks + dropStacks by {
      SnapshotOfSome(c, world, filter, start, mid);
    }
    assert |slotStacks| == slotCount by {
      SlotStacksHoldAccepted(prefix, filter, c.handle, start);
    }
    assert |dropStacks| == |drops| && forall i :: 0 <= i < |dropStacks| ==>
      dropStacks[i].dropRef == Some(drops[i]) && dropStacks[i].container == c.handle && dropStacks[i].data.None?
    by {
      DropStacksMatchHandles(DroppedHandles(c), world, filter, c.handle, mid);
    }
    ConcatDropShape(slotStacks, dropStacks, drops, c.handle);
  }

  /** The slot part keeps its shape at the head of a concatenation. */
  lemma ConcatSlotShape(slotStacks: seq<ItemStack>, dropStacks: seq<ItemStack>,
                        slotEntries: seq<EntryData>, container: RefHandle)
    requires Entries(slotStacks) == slotEntries
    requires forall i :: 0 <= i < |slotStacks| ==>
      slotStacks[i].dropRef.None? && slotStacks[i].container == container && slotStacks[i].data.None?
    ensures var stacks := slotStacks + dropStacks;
      && |slotEntries| <= |stacks|
      && Entries(stacks[..|slotEntries|]) == slotEntries
      && (forall i :: 0 <= i < |slotEntries| ==>
            stacks[i].dropRef.None? && stacks[i].container == container && stacks[i].data.None?)
  {
    assert (slotStacks + dropStacks)[..|slotStacks|] == slotStacks;
  }

  /** The drop part keeps its shape after the slot part of a concatenation. */
  lemma ConcatDropShape(slotStacks: seq<ItemStack>, dropStacks: seq<ItemStack>,
                        drops: seq<RefHandle>, container: RefHandle)
    requires |dropStacks| == |drops|
    requires forall i :: 0 <= i < |dropStacks| ==>
      dropStacks[i].dropRef == Some(drops[i]) && dropStacks[i].container == container && dropStacks[i].data.None?
    ensures var stacks := slotStacks + dropStacks;
      forall i :: 0 <= i < |drops| ==>
        stacks[|slotStacks| + i].dropRef == Some(drops[i]) && stacks[|slotStacks| + i].container == container
        && stacks[|slotStacks| + i].data.None?
    ensures var stacks := slotStacks + dropStacks;
      forall i :: |slotStacks| <= i < |stacks| ==> stacks[i].container == container && stacks[i].data.None?
  {
  }
}
