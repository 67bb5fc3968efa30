/** The `ItemStack` record: an exclusively owned inventory entry, the handle
    of the container it came from, the drop reference when it came from the
    dropped-item list, and the lazily built presentation payload. */
module ItemStacks {
  import opened Wrappers
  import opened Forms

  /** Identity of a heap-allocated `InventoryEntryData` (its address). */
  type EntryId = int

  /** An entry together with the identity of its allocation. */
  datatype OwnedEntry = OwnedEntry(id: EntryId, data: EntryData)

  /** A primitive member of the presentation payload. */
  datatype Value = Bool(b: bool) | Int(i: int) | Str(s: string)

  /** The presentation payload: named members. */
  type Payload = map<string, Value>

  datatype ItemStack = ItemStack(
    entry: OwnedEntry,
    container: RefHandle,
    dropRef: Option<RefHandle>,
    data: Option<Payload>)
  {
    /** The item's definition, taken from the entry at construction. */
    function Object(): Form {
      entry.data.item
    }
  }

  /** The constructor: takes ownership of `entry`; no payload is built yet. */
  function NewStack(container: RefHandle, entry: OwnedEntry, dropRef: Option<RefHandle>): (s: ItemStack)
    ensures s.entry == entry && s.Object() == entry.data.item
    ensures s.container == container && s.dropRef == dropRef
    ensures s.data.None?
  {
    ItemStack(entry, container, dropRef, None)
  }

  /** The identities of the entries a collection of stacks owns, in order. */
  function OwnedIds(stacks: seq<ItemStack>): (ids: seq<EntryId>)
    ensures |ids| == |stacks|
    ensures forall i :: 0 <= i < |stacks| ==> ids[i] == stacks[i].entry.id
  {
    seq(|stacks|, i requires 0 <= i < |stacks| => stacks[i].entry.id)
  }

  /** The entries deleted when a collection of stacks is destroyed: each
      stack's destructor deletes the one entry it owns. */
  function Released(stacks: seq<ItemStack>): (freed: multiset<EntryId>)
    ensures |freed| == |stacks|
    ensures forall i :: 0 <= i < |stacks| ==> stacks[i].entry.id in freed
  {
    multiset(OwnedIds(stacks))
  }

  /** The entries of two collections, one after the other. */
  lemma OwnedIdsAppend(stacks: seq<ItemStack>, more: seq<ItemStack>)
    ensures OwnedIds(stacks + more) == OwnedIds(stacks) + OwnedIds(more)
  {
    assert forall i :: 0 <= i < |more| ==> (stacks + more)[|stacks| + i] == more[i];
  }

  /** Destroying two collections deletes the entries of both. */
  lemma ReleasedAppend(stacks: seq<ItemStack>, more: seq<ItemStack>)
    ensures Released(stacks + more) == Released(stacks) + Released(more)
  {
    OwnedIdsAppend(stacks, more);
  }

  /** `GetData`: builds the payload with `build` only when none is cached yet,
      stores it, and answers the cached payload. `built` says whether this
      call ran the builder. */
  function GetData(s: ItemStack, build: ItemStack -> Payload): (r: (ItemStack, Payload, bool))
    ensures r.0 == s.(data := Some(r.1))
    ensures r.2 <==> s.data.None?
    ensures s.data.Some? ==> r.1 == s.data.value
    ensures s.data.None? ==> r.1 == build(s)
  {
    match s.data
    case Some(cached) => (s, cached, false)
    case None =>
      var payload := build(s);
      (s.(data := Some(payload)), payload, true)
  }

  /** The stack, payloads and number of builds after calling `GetData` once
      per element of `builds`, each call seeing the builder (the world state)
      of its own moment. */
  function GetDataRepeatedly(s: ItemStack, builds: seq<ItemStack -> Payload>): (r: (ItemStack, seq<Payload>, nat))
    ensures |r.1| == |builds|
    decreases |builds|
  {
    if |builds| == 0 then (s, [], 0)
    else
      var (s', payload, built) := GetData(s, builds[0]);
      var (s'', rest, count) := GetDataRepeatedly(s', builds[1..]);
      (s'', [payload] + rest, count + (if built then 1 else 0))
  }

  /** Memoisation: however many times `GetData` is called and however the
      world changes between calls, the payload is built at most once (exactly
      once when none was cached), every call answers the same payload, and
      only the cache member of the stack changes. */
  lemma {:induction false} GetDataBuildsAtMostOnce(s: ItemStack, builds: seq<ItemStack -> Payload>)
    requires |builds| > 0
    ensures var (s', payloads, count) := GetDataRepeatedly(s, builds);
      && count == (if s.data.None? then 1 else 0)
      && (forall i :: 0 <= i < |payloads| ==> payloads[i] == payloads[0])
      && payloads[0] == (if s.data.None? then builds[0](s) else s.data.value)
      && s' == s.(data := Some(payloads[0]))
    decreases |builds|
  {
    var (s1, p, b) := GetData(s, builds[0]);
    if |builds| > 1 {
      CachedIsStable(s1, builds[1..]);
    }
  }

  /** Once a payload is cached, no further call builds or changes anything. */
  lemma {:induction false} CachedIsStable(s: ItemStack, builds: seq<ItemStack -> Payload>)
    requires s.data.Some?
    ensures var (s', payloads, count) := GetDataRepeatedly(s, builds);
      && count == 0 && s' == s
      && forall i :: 0 <= i < |payloads| ==> payloads[i] == s.data.value
    decreases |builds|
  {
    if |builds| > 0 {
      CachedIsStable(s, builds[1..]);
    }
  }
}
