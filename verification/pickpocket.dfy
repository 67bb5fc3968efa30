/** `ItemStack::GetPickpocketChance`: the chance, in percent, of stealing the
    stack from the actor carrying it. The formula itself belongs to the
    engine (`AIFormulas::ComputePickpocketSuccess`) and is a host function
    here; what is modelled is when it is consulted and with what. */
module Pickpocket {
  import opened Wrappers
  import opened Forms
  import opened ItemStacks

  /** The stack's container when it still exists and is an actor. */
  function Victim(s: ItemStack, world: World): (r: Option<Ref>)
    ensures r.Some? <==> s.container in world && world[s.container].isActor
    ensures r.Some? ==> r.value == world[s.container]
  {
    match Resolve(world, s.container)
    case None => None
    case Some(container) => if container.isActor then Some(container) else None
  }

  /** The arguments the formula receives for stealing the stack's entry from
      `victim`. */
  function FormulaInputs(host: Host, s: ItemStack, victim: Ref): (inputs: PickpocketInputs)
    ensures inputs.playerSkill == host.playerPickpocketClamped
    ensures inputs.victimSkill == host.pickpocketSkill(victim)
    ensures inputs.stealValue == host.stealValue(victim, s.entry.data, s.entry.data.countDelta)
    ensures inputs.weight == host.weight(s.Object())
    ensures inputs.victim == victim.formId && inputs.item == s.Object().id
    ensures inputs.detected <==> host.detectionLevel(victim) != 0
  {
    PickpocketInputs(
      host.playerPickpocketClamped,
      host.pickpocketSkill(victim),
      host.stealValue(victim, s.entry.data, s.entry.data.countDelta),
      host.weight(s.Object()),
      victim.formId,
      host.detectionLevel(victim) != 0,
      s.Object().id)
  }

  /** Zero unless the container is a live actor; otherwise the engine
      formula's answer for the stack's entry. */
  function GetPickpocketChance(host: Host, s: ItemStack, world: World): (r: int)
    ensures Victim(s, world).None? ==> r == 0
    ensures Victim(s, world).Some? ==> r == host.pickpocketSuccess(FormulaInputs(host, s, Victim(s, world).value))
  {
    match Victim(s, world)
    case None => 0
    case Some(victim) => host.pickpocketSuccess(FormulaInputs(host, s, victim))
  }

  /** Whatever the engine formula says, a stack in a container that is not
      an actor, or no longer exists, has chance zero. */
  lemma NoVictimNoChance(host: Host, s: ItemStack, world: World)
    requires s.container !in world || !world[s.container].isActor
    ensures forall formula: PickpocketInputs -> int :: GetPickpocketChance(host.(pickpocketSuccess := formula), s, world) == 0
  {
  }
}
