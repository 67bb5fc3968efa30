/** `ItemStack::GetEnchantmentType`: whether an item is enchanted, and if so
    whether the player could learn its enchantment by disenchanting it. */
module Enchantments {
  import opened Wrappers
  import opened Forms
  import opened ItemStacks

  datatype EnchantmentType = NoEnchantment | Known | Unknown | CannotDisenchant

  /** The enchantment the item's definition carries: none when the item is
      not a `TESEnchantableForm` or its enchantment pointer is null. */
  function InnateEnchantment(item: Form): (r: Option<Enchantment>)
    ensures item.asEnchantable.None? ==> r.None?
    ensures item.asEnchantable.Some? ==> r == item.asEnchantable.value
  {
    match item.asEnchantable
    case None => None
    case Some(e) => e
  }

  /** True when the stack came from a dropped reference that is still live
      and carries `ExtraEnchantment` data. */
  predicate HasDropEnchantment(s: ItemStack, world: World) {
    s.dropRef.Some? && s.dropRef.value in world && world[s.dropRef.value].extraEnchantment.Some?
  }

  /** The enchantment that applies to a stack: the dropped reference's
      enchantment data (even a null enchantment) replaces the innate one;
      otherwise the innate one applies. */
  function EffectiveEnchantment(s: ItemStack, world: World): (r: Option<Enchantment>)
    ensures HasDropEnchantment(s, world) ==> r == world[s.dropRef.value].extraEnchantment.value
    ensures !HasDropEnchantment(s, world) ==> r == InnateEnchantment(s.Object())
  {
    var innate := InnateEnchantment(s.Object());
    match s.dropRef
    case None => innate
    case Some(handle) =>
      match Resolve(world, handle)
      case None => innate
      case Some(reference) =>
        match reference.extraEnchantment
        case None => innate
        case Some(extra) => extra
  }

  /** The verdict one enchantment gives on its own, checking the
      disallow-enchanting keyword before the known flag; `None` when it gives
      none. */
  function Verdict(e: Enchantment, disallow: FormId): (r: Option<EnchantmentType>)
    ensures r == Some(CannotDisenchant) <==> e.HasKeyword(disallow)
    ensures r == Some(Known) <==> !e.HasKeyword(disallow) && e.known
    ensures r.None? <==> !e.HasKeyword(disallow) && !e.known
  {
    if e.HasKeyword(disallow) then Some(CannotDisenchant)
    else if e.known then Some(Known)
    else None
  }

  /** The classification of an optional enchantment: none gives
      `NoEnchantment`; otherwise the enchantment's own verdict, then its base
      enchantment's verdict (one level only), then `Unknown`. */
  function Classify(enchantment: Option<Enchantment>, disallow: FormId): (t: EnchantmentType)
    ensures t == NoEnchantment <==> enchantment.None?
    ensures t == CannotDisenchant <==>
      (enchantment.Some? &&
       (|| enchantment.value.HasKeyword(disallow)
        || (!enchantment.value.known && enchantment.value.base.Some? && enchantment.value.base.value.HasKeyword(disallow))))
    ensures t == Known <==>
      (enchantment.Some? && !enchantment.value.HasKeyword(disallow) &&
       (|| enchantment.value.known
        || (enchantment.value.base.Some? && !enchantment.value.base.value.HasKeyword(disallow) && enchantment.value.base.value.known)))
  {
    match enchantment
    case None => NoEnchantment
    case Some(e) =>
      match Verdict(e, disallow)
      case Some(verdict) => verdict
      case None =>
        match e.base
        case None => Unknown
        case Some(base) => Verdict(base, disallow).GetOr(Unknown)
  }

  /** `GetEnchantmentType`, with the disallow-enchanting keyword that
      `GetEnchantmentType` looks up once passed in as `disallow`: the
      classification of the enchantment that applies to the stack, the
      dropped reference's enchantment data taking precedence over the item
      definition's enchantment. */
  function GetEnchantmentType(s: ItemStack, world: World, disallow: FormId): (t: EnchantmentType)
    ensures HasDropEnchantment(s, world) ==>
      t == Classify(world[s.dropRef.value].extraEnchantment.value, disallow)
    ensures !HasDropEnchantment(s, world) ==> t == Classify(InnateEnchantment(s.Object()), disallow)
    ensures t == NoEnchantment <==>
      if HasDropEnchantment(s, world) then world[s.dropRef.value].extraEnchantment.value.None?
      else InnateEnchantment(s.Object()).None?
  {
    Classify(EffectiveEnchantment(s, world), disallow)
  }

  /** The disallow keyword on the enchantment itself wins over its known flag
      and over anything its base says. */
  lemma DirectDisallowWins(e: Enchantment, disallow: FormId, base: Option<Enchantment>, known: bool)
    requires e.HasKeyword(disallow)
    ensures Classify(Some(e.(base := base, known := known)), disallow) == CannotDisenchant
  {
  }

  /** The base enchantment is a fallback: it is consulted only when the
      enchantment itself gives no verdict. */
  lemma BaseOnlyAsFallback(e: Enchantment, disallow: FormId, base: Option<Enchantment>)
    requires Verdict(e, disallow).Some?
    ensures Classify(Some(e.(base := base)), disallow) == Classify(Some(e), disallow)
  {
  }

  /** Only one level of base enchantment is consulted: the base's own base
      never matters. */
  lemma OneBaseLevel(e: Enchantment, disallow: FormId, deeper: Option<Enchantment>)
    requires e.base.Some?
    ensures Classify(Some(e.(base := Some(e.base.value.(base := deeper)))), disallow) == Classify(Some(e), disallow)
  {
  }

  /** A live dropped reference with enchantment extra data decides alone:
      the item definition's innate enchantment is then irrelevant, whatever
      it is. */
  lemma DropEnchantmentOverrides(s: ItemStack, world: World, disallow: FormId, innate: Option<Option<Enchantment>>)
    requires HasDropEnchantment(s, world)
    ensures var other := s.(entry := s.entry.(data := s.entry.data.(item := s.Object().(asEnchantable := innate))));
      GetEnchantmentType(other, world, disallow) == GetEnchantmentType(s, world, disallow)
  {
  }

  /** Without a live dropped reference carrying enchantment data, the
      classification is that of the item definition's innate enchantment;
      in particular every standard-slot stack is classified by its item. */
  lemma SlotStacksUseInnate(s: ItemStack, world: World, disallow: FormId)
    requires s.dropRef.None?
    ensures GetEnchantmentType(s, world, disallow) == Classify(InnateEnchantment(s.Object()), disallow)
  {
  }
}
