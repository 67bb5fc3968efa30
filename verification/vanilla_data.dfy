/** `ItemStack::SetVanillaData`: the payload members the vanilla inventory
    list builds for an item, including the soul level of soul gems and the
    stealing flag. */
module VanillaData {
  import opened Wrappers
  import opened Forms
  import opened ItemStacks
  import opened ItemTypes

  /** The result of code that may dereference a null pointer. */
  datatype Outcome<T> = Done(value: T) | NullDereference

  /** True when the stack's container is the player character: the
      container resolves and is the same object as the player, compared by
      identity rather than by contents. A stale container handle resolves
      to null, which is not the player. */
  predicate ContainerIsPlayer(host: Host, s: ItemStack, world: World): (r: bool)
    ensures r <==> s.container in world && s.container == host.player
  {
    match Resolve(world, s.container)
    case None => false
    case Some(_) => s.container == host.player
  }

  /** The owner of a stack's item when the container is known to be live:
      the entry's own owner, else the container itself when it is an actor,
      else the container's owner. */
  function OwnerWithin(entry: EntryData, container: Ref): (r: Option<FormId>)
    ensures r == FirstSome([entry.owner, if container.isActor then Some(container.formId) else None, container.owner])
  {
    var candidates := [entry.owner, if container.isActor then Some(container.formId) else None, container.owner];
    assert candidates[1..] == [candidates[1], candidates[2]];
    assert candidates[1..][1..] == [candidates[2]];
    if entry.owner.Some? then entry.owner
    else if container.isActor then Some(container.formId)
    else container.owner
  }

  /** The stealing flag as `SetVanillaData` computes it: absent for the player's
      own inventory; otherwise the owner lookup, which dereferences the
      container when the entry has no owner of its own, even when the
      container handle is stale. */
  function StealingFlagAsWritten(host: Host, s: ItemStack, world: World): (r: Outcome<Option<bool>>)
    ensures r.NullDereference? <==>
      !ContainerIsPlayer(host, s, world) && s.entry.data.owner.None? && s.container !in world
  {
    var container := Resolve(world, s.container);
    if ContainerIsPlayer(host, s, world) then Done(None)
    else
      var entry := s.entry.data;
      if entry.owner.None? && container.None? then NullDereference
      else
        var owner := if entry.owner.Some? then entry.owner else OwnerWithin(entry, container.value);
        var allowed := host.isAllowedToTake(owner, host.entryValue(entry));
        Done(Some(owner.Some? && !allowed))
  }

  /** The owner used for the stealing flag: as in `SetVanillaData`, with a
      container that no longer exists contributing no owner. */
  function StealingOwner(s: ItemStack, world: World): (r: Option<FormId>)
    ensures s.container in world ==> r == OwnerWithin(s.entry.data, world[s.container])
    ensures s.container !in world ==> r == s.entry.data.owner
  {
    match Resolve(world, s.container)
    case None => s.entry.data.owner
    case Some(container) => OwnerWithin(s.entry.data, container)
  }

  /** The stealing flag: absent exactly for the player's own inventory, and
      set exactly when the item has an owner and the player may not take it
      at its value. */
  function StealingFlag(host: Host, s: ItemStack, world: World): (r: Option<bool>)
    ensures r.None? <==> ContainerIsPlayer(host, s, world)
    ensures r == Some(true) <==>
      && !ContainerIsPlayer(host, s, world)
      && StealingOwner(s, world).Some?
      && !host.isAllowedToTake(StealingOwner(s, world), host.entryValue(s.entry.data))
  {
    if ContainerIsPlayer(host, s, world) then None
    else
      var owner := StealingOwner(s, world);
      Some(owner.Some? && !host.isAllowedToTake(owner, host.entryValue(s.entry.data)))
  }

  /** Wherever the code as written completes, the corrected flag agrees
      with it. */
  lemma StealingFlagAgrees(host: Host, s: ItemStack, world: World)
    ensures StealingFlagAsWritten(host, s, world).Done? ==>
      StealingFlagAsWritten(host, s, world).value == StealingFlag(host, s, world)
  {
  }

  /** A stack whose entry has no owner of its own, taken from a container
      that has since been deleted, makes the code as written dereference null; the
      corrected flag is `false`, as for any unowned item. */
  lemma StaleContainerDereferencesNull(host: Host, s: ItemStack, world: World)
    requires s.container !in world && s.entry.data.owner.None?
    ensures StealingFlagAsWritten(host, s, world) == NullDereference
    ensures StealingFlag(host, s, world) == Some(false)
  {
  }

  /** The player test compares identities: a live container under any
      handle other than the player's gets a stealing flag, even when its
      record equals the player's, and the player's own inventory never gets
      one, whatever the player's record holds. */
  lemma PlayerTestIsIdentity(host: Host, s: ItemStack, world: World, other: RefHandle)
    requires host.player in world && other in world && other != host.player
    ensures StealingFlag(host, s.(container := host.player), world).None?
    ensures StealingFlag(host, s.(container := other), world).Some?
  {
  }

  /** The soul level member: present exactly for soul gems. */
  function SoulLevel(host: Host, s: ItemStack): (r: Option<int>)
    ensures r.Some? <==> GetItemType(s.Object()) == ItemType.SoulGem
    ensures r.Some? ==> r.value == host.soulLevel(s.entry.data)
  {
    if s.Object().formType == FormType.SoulGem then Some(host.soulLevel(s.entry.data)) else None
  }

  /** The six members every item gets, named as the inventory list expects. */
  const StandardMembers: set<string> := {"text", "count", "equipState", "filterFlag", "favorite", "enabled"}

  /** The optional members' names differ from each other and from the
      standard members' names. */
  lemma MemberNamesDistinct()
    ensures "soulLVL" !in StandardMembers && "isStealing" !in StandardMembers && "soulLVL" != "isStealing"
  {
    assert "soulLVL"[0] == 's' && "isStealing"[0] == 'i';
    assert forall k :: k in StandardMembers ==> k[0] in {'t', 'c', 'e', 'f'};
  }

  /** The members built from the engine's `StandardItemData` fields. */
  function StandardPayload(fields: StandardFields): (p: Payload)
    ensures p.Keys == StandardMembers
    ensures && p["text"] == Str(fields.text)
            && p["count"] == Int(fields.count)
            && p["equipState"] == Int(fields.equipState)
            && p["filterFlag"] == Int(fields.filterFlag)
            && p["favorite"] == Bool(fields.favorite)
            && p["enabled"] == Bool(fields.enabled)
  {
    map[
      "text" := Str(fields.text),
      "count" := Int(fields.count),
      "equipState" := Int(fields.equipState),
      "filterFlag" := Int(fields.filterFlag),
      "favorite" := Bool(fields.favorite),
      "enabled" := Bool(fields.enabled)]
  }

  /** A payload with `key` set to the optional value, or unchanged when there
      is none. */
  function SetOptional(p: Payload, key: string, value: Option<Value>): (r: Payload)
    ensures r.Keys == p.Keys + (if value.Some? then {key} else {})
    ensures value.Some? ==> r[key] == value.value
    ensures forall k :: k in p && k != key ==> r[k] == p[k]
    ensures value.None? ==> r == p
  {
    match value
    case None => p
    case Some(v) => p[key := v]
  }

  /** The vanilla payload of a stack: the six standard members, then the soul
      level of a soul gem, then the stealing flag of an item outside the
      player's inventory. The flag is the corrected `StealingFlag`: for an
      unowned entry whose container handle is stale, the code as written
      dereferences null (see `StaleContainerDereferencesNull`) and builds no
      payload at all, where this one carries `isStealing = false`. */
  function VanillaPayload(host: Host, s: ItemStack, world: World): (p: Payload)
    ensures p.Keys == StandardMembers
      + (if SoulLevel(host, s).Some? then {"soulLVL"} else {})
      + (if StealingFlag(host, s, world).Some? then {"isStealing"} else {})
  {
    var soul := match SoulLevel(host, s) case None => None case Some(level) => Some(Int(level));
    var stealing := match StealingFlag(host, s, world) case None => None case Some(flag) => Some(Bool(flag));
    SetOptional(SetOptional(StandardPayload(host.standardFields(s.entry.data, s.container)), "soulLVL", soul), "isStealing", stealing)
  }

  /** The values of the vanilla payload: the standard members as the engine
      reports them for the entry in its container, the soul level and the
      stealing flag as computed above. */
  lemma VanillaPayloadValues(host: Host, s: ItemStack, world: World)
    ensures var p := VanillaPayload(host, s, world);
      && (forall k :: k in StandardMembers ==> p[k] == StandardPayload(host.standardFields(s.entry.data, s.container))[k])
      && ("soulLVL" in p ==> p["soulLVL"] == Int(SoulLevel(host, s).value))
      && ("isStealing" in p ==> p["isStealing"] == Bool(StealingFlag(host, s, world).value))
  {
    MemberNamesDistinct();
  }
}
