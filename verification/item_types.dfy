/** `ItemStack::GetItemType`: the interface category of an item, from its
    form type and, for books and potions, from the subtype's data. */
module ItemTypes {
  import opened Wrappers
  import opened Forms

  /** The categories the inventory interface distinguishes (`ItemType`);
      `NoType` is `kNone`. */
  datatype ItemType = NoType | Armor | Weapon | Book | Ingredient | Misc | Key | Food | MagicItem | SoulGem

  /** True when the book downcast succeeds and the book teaches a spell. */
  predicate TeachesSpell(item: Form) {
    item.asBook.Some? && item.asBook.value.teachesSpell
  }

  /** True when the alchemy downcast succeeds and the item is food. */
  predicate IsFood(item: Form) {
    item.asAlchemy.Some? && item.asAlchemy.value.isFood
  }

  /** The category of `item`. Each category is stated by its preimage: which
      form types, and which subtype data, lead to it. */
  function GetItemType(item: Form): (t: ItemType)
    ensures t == ItemType.Armor <==> item.formType == FormType.Armor
    ensures t == ItemType.Weapon <==> item.formType in {FormType.Weapon, FormType.Ammo}
    ensures t == ItemType.Book <==> item.formType == FormType.Book && !TeachesSpell(item)
    ensures t == ItemType.Ingredient <==> item.formType == FormType.Ingredient
    ensures t == ItemType.Misc <==> item.formType in {FormType.Misc, FormType.Light}
    ensures t == ItemType.Key <==> item.formType == FormType.KeyMaster
    ensures t == ItemType.Food <==> item.formType == FormType.AlchemyItem && IsFood(item)
    ensures t == ItemType.MagicItem <==>
      || (item.formType == FormType.Book && TeachesSpell(item))
      || (item.formType == FormType.AlchemyItem && !IsFood(item))
    ensures t == ItemType.SoulGem <==> item.formType == FormType.SoulGem
    ensures t == ItemType.NoType <==> item.formType == FormType.FormList || item.formType.Other?
  {
    var k := item.formType;
    if k.Armor? then ItemType.Armor
    else if k.Weapon? || k.Ammo? then ItemType.Weapon
    else if k.Book? then
      match item.asBook
      case Some(book) => if book.teachesSpell then ItemType.MagicItem else ItemType.Book
      case None => ItemType.Book
    else if k.Ingredient? then ItemType.Ingredient
    else if k.Misc? || k.Light? then ItemType.Misc
    else if k.KeyMaster? then ItemType.Key
    else if k.AlchemyItem? then
      match item.asAlchemy
      case Some(alchemy) => if alchemy.isFood then ItemType.Food else ItemType.MagicItem
      case None => ItemType.MagicItem
    else if k.SoulGem? then ItemType.SoulGem
    else ItemType.NoType
  }

  /** The subtype data matters only for the form type it belongs to: the book
      data of a non-book and the alchemy data of a non-alchemy item never
      change the category. */
  lemma SubtypeDataIsLocal(item: Form, book: Option<BookData>, alchemy: Option<AlchemyData>)
    ensures item.formType != FormType.Book ==> GetItemType(item.(asBook := book)) == GetItemType(item)
    ensures item.formType != FormType.AlchemyItem ==> GetItemType(item.(asAlchemy := alchemy)) == GetItemType(item)
  {
  }
}
