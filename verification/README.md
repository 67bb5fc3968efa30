# QuickLoot item stacks, modelled in Dafny

This project models `QuickLoot::Items::ItemStack` from TrueHUD's
QuickLoot code (`src/ItemData/ItemStack.cpp`). An `ItemStack` is one row of
the loot menu. It owns a heap-allocated inventory entry, remembers the handle
of the container it came from and, for items lying in the container's
dropped-item list, the handle of that dropped reference. It also builds, once,
the payload object the menu's script reads.

Modules, one file each:

- `wrappers.dfy` (`Wrappers`): `Option` and a first-present-value helper.
- `forms.dfy` (`Forms`): the engine objects the code reads.
  - Forms, with their possible downcasts as optional fields.
  - Inventory entries, world references, and the world as a map from handle to reference. A stale handle is a missing key.
  - `Host`: the engine functions the code calls but does not define.
- `item_stacks.dfy` (`ItemStacks`): the record, its constructor and its destructor, plus `GetData` memoisation.
- `inventory.dfy` (`Inventory`): `LoadContainerInventory`.
  - Heap entries are modelled by allocation identities.
  - The walk takes identities `start, start + 1, ...`.
  - The ghost trace `deleted` records the deletes done during the walk.
  - `Released` gives the deletes the stacks' destructors do later.
- `item_types.dfy` (`ItemTypes`): `GetItemType`.
- `enchantments.dfy` (`Enchantments`): `GetEnchantmentType`.
- `vanilla_data.dfy` (`VanillaData`): `SetVanillaData`, covering the standard members, the soul level and the stealing flag.
- `keywords.dfy` (`Keywords`): `GetKeywords`.
- `form_info.dfy` (`FormInfo`): `GetBasicFormInfo`.
- `pickpocket.dfy` (`Pickpocket`): `GetPickpocketChance`.
- `rounding.dfy` (`Rounding`): `RoundValue` and `TruncatePrecision`.

## Model

| member | source | states |
|---|---|---|
| ItemStacks.NewStack | src/ItemData/ItemStack.cpp:12-19 | The new stack owns exactly the given entry. Its object is the entry's object. It keeps the container and drop handles. No payload exists yet. |
| ItemStacks.Released | src/ItemData/ItemStack.cpp:21-24 | Destroying n stacks deletes n entries, and each stack's own entry is among them. |
| ItemStacks.GetData | src/ItemData/ItemStack.cpp:26-38 | The builder runs exactly when no payload is cached. The answer is the cached payload or the new one. Only the cache member of the stack changes. |
| ItemStacks.GetDataBuildsAtMostOnce | src/ItemData/ItemStack.cpp:26-38 | Over any sequence of calls, even with the world changing between them, the payload is built at most once. It is built exactly once if nothing was cached. Every call answers the same payload. |
| ItemStacks.CachedIsStable | src/ItemData/ItemStack.cpp:26-38 | Once a payload is cached, later calls build nothing and change nothing. |
| Forms.Resolve | src/ItemData/ItemStack.cpp:79-83 | A handle resolves exactly when its reference is live, and then to that reference. |
| Inventory.LoadContainerInventory | src/ItemData/ItemStack.cpp:40-102 | A null container gives no stacks and allocates or deletes nothing. Otherwise the result is the slot records followed by the drop records. Every entry the walk obtains is deleted exactly once: during the walk or by one stack's destructor. |
| Inventory.WalkSlots | src/ItemData/ItemStack.cpp:59-72 | The slot loop visits the leading run of non-null slots. It wraps each accepted entry and deletes each rejected one. |
| Inventory.WalkDrops | src/ItemData/ItemStack.cpp:77-99 | The drop loop yields one record per accepted handle, in list order, and a fresh entry for each. |
| Inventory.SlotPrefixIsLeadingRun | src/ItemData/ItemStack.cpp:59-64 | The walked entries are exactly the slots before the first null one. |
| Inventory.SlotPrefixAt | src/ItemData/ItemStack.cpp:60-64 | At each index of the run the walk obtains that slot's entry, and at the run's end it obtains null. |
| Inventory.AcceptDrop | src/ItemData/ItemStack.cpp:79-92 | A handle contributes exactly when it is live, its reference has a base object and the filter accepts that object. The entry is that object with the reference's count and no owner override. |
| Inventory.SlotAccounting | src/ItemData/ItemStack.cpp:66-71 | Each slot entry is either deleted or owned by a record, never both, never neither. |
| Inventory.SlotPhaseAccount | src/ItemData/ItemStack.cpp:59-72 | The slot phase's deletions plus its records' entries are exactly the identities it obtained. |
| Inventory.DropStacksOwnedIds | src/ItemData/ItemStack.cpp:91-97 | The drop records own freshly allocated entries with consecutive identities. |
| Inventory.DropPhaseAccount | src/ItemData/ItemStack.cpp:77-99 | The drop phase's records own exactly the identities it allocated. |
| Inventory.WalkAccounting | src/ItemData/ItemStack.cpp:54-99 | Over the whole walk, every allocated identity is deleted exactly once. No other identity is deleted. |
| Inventory.ExactlyOnce | src/ItemData/ItemStack.cpp:59-99 | Two accounts that together make up an identity range hold each identity of the range exactly once. |
| Inventory.SlotStacksHoldAccepted | src/ItemData/ItemStack.cpp:59-72 | The slot records hold exactly the accepted entries, in slot order. |
| Inventory.SlotStacksOrigin | src/ItemData/ItemStack.cpp:66-71 | Slot records have no drop handle, hold accepted objects, and own distinct entries whose identities rise in walk order. |
| Inventory.DropStacksMatchHandles | src/ItemData/ItemStack.cpp:77-98 | The i-th drop record keeps the i-th accepted handle and owns the entry built from that reference. |
| Inventory.DuplicateDropsKept | src/ItemData/ItemStack.cpp:74-98 | A handle listed twice gives two records with the same contents but distinct entries, so there is no deduplication. |
| Inventory.SnapshotShape | src/ItemData/ItemStack.cpp:40-102 | The result's length is the number of accepted slot entries plus the number of accepted handles. The slot part comes first, holding the accepted entries in slot order without a drop reference. The i-th drop record keeps the i-th accepted handle. Every record points at the container and has no payload yet. |
| Inventory.SnapshotSlotPart | src/ItemData/ItemStack.cpp:59-72 | The leading records of a snapshot hold the accepted slot entries in order, with no drop reference. |
| Inventory.SnapshotDropPart | src/ItemData/ItemStack.cpp:77-99 | After the slot records, the i-th record keeps the i-th accepted handle. |
| Inventory.ConcatSlotShape | src/ItemData/ItemStack.cpp:59-99 | The shape of the slot part carries over to the head of the concatenation. |
| Inventory.ConcatDropShape | src/ItemData/ItemStack.cpp:59-99 | The shape of the drop part carries over to the tail of the concatenation. |
| ItemTypes.GetItemType | src/ItemData/ItemStack.cpp:146-184 | Each category's exact preimage. Weapons and ammo are weapons; misc items and lights are misc. A spell tome is a magic item, and any other book is a book, including a failed cast. Food is food; any other alchemy item is a magic item, including a failed cast. Unlisted form types get no category. |
| ItemTypes.SubtypeDataIsLocal | src/ItemData/ItemStack.cpp:156-176 | Book data matters only for books, and alchemy data only for alchemy items. |
| Enchantments.InnateEnchantment | src/ItemData/ItemStack.cpp:268-269 | A non-enchantable form has no enchantment. Otherwise the form's enchantment pointer is used. |
| Enchantments.EffectiveEnchantment | src/ItemData/ItemStack.cpp:268-275 | A live drop reference with enchantment data replaces the innate enchantment, even with null. Otherwise the innate one applies. |
| Enchantments.Verdict | src/ItemData/ItemStack.cpp:281-287 | The disallow keyword gives "cannot disenchant", ahead of the known flag. The known flag gives "known". Otherwise there is no verdict. |
| Enchantments.Classify | src/ItemData/ItemStack.cpp:277-299 | The exact conditions for each outcome. No enchantment gives none. The enchantment's own verdict comes first, then its base's verdict, then "unknown". |
| Enchantments.GetEnchantmentType | src/ItemData/ItemStack.cpp:262-300 | With live drop enchantment data, the result classifies that enchantment. Otherwise it classifies the item definition's enchantment. The result is "none" exactly when the enchantment that applies is null. |
| Enchantments.DirectDisallowWins | src/ItemData/ItemStack.cpp:281-283 | The disallow keyword on the enchantment decides, whatever its known flag and base. |
| Enchantments.BaseOnlyAsFallback | src/ItemData/ItemStack.cpp:281-297 | The base enchantment matters only when the enchantment itself gives no verdict. |
| Enchantments.OneBaseLevel | src/ItemData/ItemStack.cpp:289-297 | Only one level of base enchantment is consulted. |
| Enchantments.DropEnchantmentOverrides | src/ItemData/ItemStack.cpp:271-275 | With live drop enchantment data, the item definition's enchantment is irrelevant. |
| Enchantments.SlotStacksUseInnate | src/ItemData/ItemStack.cpp:268-271 | A slot record is classified by its item's own enchantment. |
| VanillaData.ContainerIsPlayer | src/ItemData/ItemStack.cpp:131-132 | True exactly when the container handle is live and is the player's handle. The test compares identities, not record contents. |
| VanillaData.OwnerWithin | src/ItemData/ItemStack.cpp:133-137 | The owner is the first present one of: the entry's owner, the container if it is an actor, the container's owner. |
| VanillaData.StealingFlagAsWritten | src/ItemData/ItemStack.cpp:130-140 | The code as written dereferences null exactly when the container is not the player, the entry has no owner and the container handle is stale. |
| VanillaData.StealingOwner | src/ItemData/ItemStack.cpp:133-137 | The owner lookup. A missing container contributes no owner. |
| VanillaData.StealingFlag | src/ItemData/ItemStack.cpp:130-140 | The flag is absent exactly in the player's own inventory. It is true exactly when an owner exists and the player may not take the item at its value. |
| VanillaData.StealingFlagAgrees | src/ItemData/ItemStack.cpp:130-140 | Wherever the code as written completes, the corrected flag gives the same answer. |
| VanillaData.StaleContainerDereferencesNull | src/ItemData/ItemStack.cpp:131-137 | An unowned entry from a deleted container crashes the code as written. The corrected flag is false. |
| VanillaData.PlayerTestIsIdentity | src/ItemData/ItemStack.cpp:131-132 | The player's inventory never gets a stealing flag. Any other live container does, even one whose record equals the player's. |
| VanillaData.SoulLevel | src/ItemData/ItemStack.cpp:126-128 | The soul level member is present exactly for soul gems, with the entry's soul level. |
| VanillaData.StandardPayload | src/ItemData/ItemStack.cpp:118-123 | The six standard members, with the engine's values. |
| VanillaData.SetOptional | src/ItemData/ItemStack.cpp:126-140 | An optional member is added with its value, or the payload is left unchanged. |
| VanillaData.VanillaPayload | src/ItemData/ItemStack.cpp:104-141 | The payload's member names: the six standard ones, plus `soulLVL` for soul gems, plus `isStealing` outside the player's inventory. It uses the corrected stealing flag. For an unowned entry from a stale container, the code as written crashes at line 136 instead of producing a payload. |
| VanillaData.VanillaPayloadValues | src/ItemData/ItemStack.cpp:118-140 | The value of each member of the payload. |
| Keywords.SlotName | src/ItemData/ItemStack.cpp:233-239 | A slot contributes a name exactly when it holds a keyword with a non-null, non-empty editor ID. |
| Keywords.KeywordNamesMembership | src/ItemData/ItemStack.cpp:231-243 | A name is in the keyword object exactly when some slot's keyword has that non-empty editor ID. |
| Keywords.GetKeywords | src/ItemData/ItemStack.cpp:226-246 | A non-keyword form gives an empty object. Otherwise the members are exactly the contributed names, each set to true, and never the empty name. |
| FormInfo.GetBasicFormInfo | src/ItemData/ItemStack.cpp:204-224 | The object has the form's type and ID. It has a `forms` array exactly for form lists, with one element per member. |
| FormInfo.MemberInfos | src/ItemData/ItemStack.cpp:217-220 | The member array has one object per list member, and its i-th element is the info object of the i-th member. |
| FormInfo.InfoReportsReachable | src/ItemData/ItemStack.cpp:209-221 | The object reports, in pre-order, the type, ID and member count of every form reachable through list membership, nothing else, at any depth. |
| FormInfo.ReportedParsesUniquely | src/ItemData/ItemStack.cpp:209-221 | Two info objects with the same pre-order, member counts included, are equal, even when each pre-order is followed by more nodes. |
| FormInfo.ReportedAllParsesUniquely | src/ItemData/ItemStack.cpp:216-220 | Two member arrays of equal length with the same pre-order are equal. |
| FormInfo.InfoDeterminedByReachable | src/ItemData/ItemStack.cpp:204-224 | An info object reports exactly the forms reachable from a form, nested as in the form, if and only if it is that form's info object. |
| Pickpocket.Victim | src/ItemData/ItemStack.cpp:189-192 | There is a victim exactly when the container is live and is an actor. |
| Pickpocket.FormulaInputs | src/ItemData/ItemStack.cpp:194-201 | The formula gets the victim's steal value for the entry and its count delta, the object's weight, both skills, and "detected" iff the victim's detection level is nonzero. |
| Pickpocket.GetPickpocketChance | src/ItemData/ItemStack.cpp:186-202 | Zero without a victim. Otherwise the engine formula's answer for those inputs. |
| Pickpocket.NoVictimNoChance | src/ItemData/ItemStack.cpp:189-192 | Without a victim the chance is zero whatever the formula. |
| Rounding.Ceil | src/ItemData/ItemStack.cpp:250 | `ceil` is the least whole number not below its argument. |
| Rounding.RoundValue | src/ItemData/ItemStack.cpp:248-251 | The result is whole and within one half of the input. Halves move away from zero. |
| Rounding.RoundValueSymmetric | src/ItemData/ItemStack.cpp:248-251 | Rounding commutes with negation. |
| Rounding.RoundValueNearest | src/ItemData/ItemStack.cpp:248-251 | No whole number is closer to the input than its rounding. |
| Rounding.RoundValueOfWhole | src/ItemData/ItemStack.cpp:248-251 | Whole numbers are unchanged. |
| Rounding.RoundValueTiesAwayFromZero | src/ItemData/ItemStack.cpp:248-251 | Exact halves round away from zero. |
| Rounding.TruncatePrecision | src/ItemData/ItemStack.cpp:253-260 | Null exactly for a non-positive value when negatives are not allowed. Otherwise a multiple of 1/100 within 1/200 of the value. A value exactly halfway between two hundredths goes to the one farther from zero. |
| Rounding.RoundValueOfTie | src/ItemData/ItemStack.cpp:248-251 | A value halfway between two whole numbers rounds to the one farther from zero. |
| Rounding.TruncatePrecisionNearest | src/ItemData/ItemStack.cpp:253-260 | No whole number of hundredths is nearer to the value than the result. |
| Rounding.TruncatePrecisionExamples | src/ItemData/ItemStack.cpp:253-260 | Worked values: 2.674 gives 2.67, 2.675 gives 2.68, -2.675 gives -2.68 when negatives are allowed and null otherwise. 0 gives null unless negatives are allowed. |

## Left out

- The other payload builders `GetData` runs (`SkseExtendItemData`, `SkyUiProcessEntry`, `SkyUiSelectIcon`) are defined outside `ItemStack.cpp` and are not modelled. `GetData` therefore takes the builder as a parameter, and `VanillaPayload` models only the part built by `SetVanillaData`.
- `RefreshEnchantedWeapons`, called for actor containers before the walk, calls a relocated engine function. Its effect on the container is assumed to be already reflected in the slots.
- The `StandardItemData` instance assembled from a raw vtable, and its name, count, equip, filter, favourite and enabled virtuals, are engine code. They are the host function `standardFields`.
- The scripting runtime (`GFxMovieView`, `GFxValue`) is left out. Payloads are maps from member name to value, and arrays are sequences.
- The engine calls `IsPlayerAllowedToTakeItemWithValue`, `GetValue`, `GetSoulLevel`, `GetStealValue`, `GetWeight`, `RequestDetectionLevel`, the pickpocket actor values and `AIFormulas::ComputePickpocketSuccess` are fields of `Host`. Their own behaviour is not modelled.
- The one-time lookup of the disallow-enchanting keyword becomes the parameter `disallow`. A failed lookup (a null keyword) is not modelled.
- Numeric form type codes are not modelled. `GetBasicFormInfo` reports the `FormType` value rather than its underlying number.
- A form list that contains itself cannot be represented, since forms are finite trees here. `GetBasicFormInfo` would recurse without end on one.
- Inventory.LoadContainerInventory: exceptions are not modelled. The entry obtained at line 60 leaks if the caller's `filter` throws at line 66, for example an empty `std::function` throwing `std::bad_function_call`. An entry also leaks if `std::make_unique<ItemStack>` throws at line 71 or line 97: the entry obtained at line 60 or allocated at line 92 is then owned by nothing. The model has no failure path, so its exactly-once deletion holds only when neither happens.
- Entries obtained from `GetInventoryEntryAt` are assumed to be fresh allocations, each with its own identity.
- Rounding.RoundValue: computed over exact reals, not IEEE doubles. Representation error such as `1.005 * 100` being slightly below `100.5` is not modelled.
- Rounding.TruncatePrecision: computed over exact reals, for the same reason. Its worked examples hold for reals, not necessarily for doubles.
- The loot widget that consumes the stacks (`RecentLoot`) is outside this model.

## Findings

| source | as written | input that shows it | evidently intended | confidence | as-written member | corrected member |
|---|---|---|---|---|---|---|
| src/ItemData/ItemStack.cpp:131-136 | When the entry has no owner, the code reads the container's owner through `container` without a null check. `container` comes from a handle that resolves to null once the container reference is gone. | A stack whose container handle is stale and whose entry carries no owner override. The code compares null with the player, finds them different, then calls `GetOwner` on null. | A missing container contributes no owner, so the stealing flag is `false` | not executed | VanillaData.StealingFlagAsWritten, VanillaData.StaleContainerDereferencesNull | VanillaData.StealingFlag |
