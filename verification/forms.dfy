/** The engine objects the item-stack code reads: forms (static definitions),
    inventory entries, world references and the host functions it calls.

    A C++ downcast (`skyrim_cast`) that may fail is modelled as an optional
    field holding the subtype's data: `None` is a failed cast. */
module Forms {
  import opened Wrappers

  type FormId = int

  /** Handle of a world reference (`ObjectRefHandle`); it may be stale. */
  type RefHandle = int

  /** The structural kinds of forms the classification distinguishes;
      every other engine form type is `Other`. */
  datatype FormType =
    | Armor | Weapon | Ammo | Book | Ingredient | Misc | Light
    | KeyMaster | AlchemyItem | SoulGem | FormList
    | Other(code: nat)

  /** A keyword form; its editor ID is a C string that may be null. */
  datatype Keyword = Keyword(id: FormId, editorId: Option<string>)

  /** An enchantment (`EnchantmentItem`): its attached keywords, the
      player-knows-it record flag, and the optional base enchantment it was
      derived from. */
  datatype Enchantment = Enchantment(
    id: FormId,
    keywords: set<FormId>,
    known: bool,
    base: Option<Enchantment>)
  {
    predicate HasKeyword(keyword: FormId) {
      keyword in keywords
    }
  }

  datatype BookData = BookData(teachesSpell: bool)

  datatype AlchemyData = AlchemyData(isFood: bool)

  /** A form (`TESForm` / `TESBoundObject`).
      - asBook, asAlchemy: the result of downcasting to the book / alchemy subtype;
      - asKeywordForm: the keyword slots (an empty slot is `None`) when the form
        is a `BGSKeywordForm`;
      - asEnchantable: when the form is a `TESEnchantableForm`, its innate
        enchantment, which may itself be null;
      - asList: the members when the form is a `BGSListForm`. */
  datatype Form = Form(
    id: FormId,
    formType: FormType,
    asBook: Option<BookData>,
    asAlchemy: Option<AlchemyData>,
    asKeywordForm: Option<seq<Option<Keyword>>>,
    asEnchantable: Option<Option<Enchantment>>,
    asList: ListData)

  /** The result of downcasting a form to `BGSListForm`: its members when the
      cast succeeds. */
  datatype ListData = NotAList | ListForm(members: seq<Form>)

  /** The contents of one `InventoryEntryData`: its object (`item`), its count delta
      and the per-entry ownership override held in its extra lists. */
  datatype EntryData = EntryData(item: Form, countDelta: int, owner: Option<FormId>)

  /** A world reference (`TESObjectREFR`).
      - formId: the reference's own form, which is the owner when it is an actor;
      - baseObject: `GetObjectReference()`, possibly null;
      - owner: the reference's static owner (`GetOwner()`);
      - count: the stack count in its extra data;
      - extraEnchantment: the `ExtraEnchantment` extra data when attached, whose
        enchantment pointer may itself be null;
      - slots: what `GetInventoryEntryAt` returns for index 0, 1, ...; an index
        past the end returns null;
      - droppedItems: the `ExtraDroppedItemList` when attached. */
  datatype Ref = Ref(
    handle: RefHandle,
    formId: FormId,
    isActor: bool,
    baseObject: Option<Form>,
    owner: Option<FormId>,
    count: int,
    extraEnchantment: Option<Option<Enchantment>>,
    slots: seq<Option<EntryData>>,
    droppedItems: Option<seq<RefHandle>>)

  /** The live references of the world; a handle that is not a key is stale. */
  type World = map<RefHandle, Ref>

  /** `handle.get()`: the reference, or `None` when the handle is stale. */
  function Resolve(world: World, handle: RefHandle): (r: Option<Ref>)
    ensures r.Some? <==> handle in world
    ensures r.Some? ==> r.value == world[handle]
  {
    if handle in world then Some(world[handle]) else None
  }

  /** The name/count/equip/filter/favorite/enabled fields the engine's
      `StandardItemData` virtuals report for an entry held by a container. */
  datatype StandardFields = StandardFields(
    text: string,
    count: int,
    equipState: int,
    filterFlag: int,
    favorite: bool,
    enabled: bool)

  /** The host-engine calls the item-stack code makes and trusts. The player
      character is named by its handle: two references are the same object
      exactly when their handles are equal, whatever their records hold. */
  datatype Host = Host(
    player: RefHandle,
    standardFields: (EntryData, RefHandle) -> StandardFields,
    entryValue: EntryData -> int,
    soulLevel: EntryData -> int,
    isAllowedToTake: (Option<FormId>, int) -> bool,
    stealValue: (Ref, EntryData, int) -> int,
    weight: Form -> real,
    detectionLevel: Ref -> int,
    playerPickpocketClamped: real,
    pickpocketSkill: Ref -> real,
    pickpocketSuccess: PickpocketInputs -> int)

  /** The arguments of `AIFormulas::ComputePickpocketSuccess`. */
  datatype PickpocketInputs = PickpocketInputs(
    playerSkill: real,
    victimSkill: real,
    stealValue: int,
    weight: real,
    victim: FormId,
    detected: bool,
    item: FormId)
}
