/** `ItemStack::GetKeywords`: the set of the item's keyword editor IDs, as an
    object whose members are those IDs, each set to `true`. */
module Keywords {
  import opened Wrappers
  import opened Forms

  /** The member name one keyword slot contributes: none for an empty slot,
      for a keyword whose editor ID is null, and for an empty editor ID. */
  function SlotName(slot: Option<Keyword>): (r: Option<string>)
    ensures r.Some? <==> slot.Some? && slot.value.editorId.Some? && slot.value.editorId.value != ""
    ensures r.Some? ==> r == slot.value.editorId
  {
    match slot
    case None => None
    case Some(keyword) =>
      match keyword.editorId
      case None => None
      case Some(name) => if name == "" then None else Some(name)
  }

  /** Reference definition of the names the slots contribute. */
  function KeywordNames(slots: seq<Option<Keyword>>): set<string>
  {
    if |slots| == 0 then {}
    else
      var last := slots[|slots| - 1];
      KeywordNames(slots[..|slots| - 1]) + (if SlotName(last).Some? then {SlotName(last).value} else {})
  }

  /** A name is contributed exactly when some slot holds a keyword with that
      non-empty editor ID. */
  lemma {:induction false} KeywordNamesMembership(slots: seq<Option<Keyword>>, name: string)
    ensures name in KeywordNames(slots) <==>
      name != "" && exists i :: 0 <= i < |slots| && slots[i].Some? && slots[i].value.editorId == Some(name)
  {
    if |slots| > 0 {
      var init := slots[..|slots| - 1];
      KeywordNamesMembership(init, name);
      assert forall i :: 0 <= i < |init| ==> init[i] == slots[i];
      if name != "" && slots[|slots| - 1].Some? && slots[|slots| - 1].value.editorId == Some(name) {
        assert name in KeywordNames(slots);
      }
    }
  }

  /** The keywords object of `item`; empty when the item is not a
      `BGSKeywordForm`. Slots are visited in order; a name met twice is set
      twice, to the same value. */
  method GetKeywords(item: Form) returns (keywords: map<string, bool>)
    ensures item.asKeywordForm.None? ==> keywords == map[]
    ensures item.asKeywordForm.Some? ==> keywords.Keys == KeywordNames(item.asKeywordForm.value)
    ensures forall name :: name in keywords ==> keywords[name]
    ensures "" !in keywords
  {
    keywords := map[];
    if item.asKeywordForm.None? {
      return;
    }
    var slots := item.asKeywordForm.value;
    for i := 0 to |slots|
      invariant keywords.Keys == KeywordNames(slots[..i])
      invariant forall name :: name in keywords ==> keywords[name]
      invariant "" !in keywords
    {
      assert slots[..i + 1][..i] == slots[..i];
      var keyword := slots[i];
      if keyword.None? {
        continue;
      }
      var editorId := keyword.value.editorId;
      if editorId.None? || editorId.value == "" {
        continue;
      }
      keywords := keywords[editorId.value := true];
    }
    assert slots[..|slots|] == slots;
  }
}
