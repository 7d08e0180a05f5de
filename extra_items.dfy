/**
 * The menu items that other add-ons contribute, as each owner's list holds
 * them (one record per registered item, in registration order).
 */
module ExtraItems {
  import opened Options
  import AddonInfo

  /**
   * The `type` of an item. An item without a type, or with a type the menu
   * does not know, behaves as `Normal`.
   */
  datatype ItemType = Normal | Checkbox | Radio | Separator

  /**
   * The fields of a contributed item that the menu reads. `parentId` is ""
   * when the item has none (a falsy value in the source); `contexts`,
   * `documentUrlPatterns` and `icons` are `None` when the item leaves them
   * out.
   */
  datatype ExtraItem = ExtraItem(
    id: string,
    itemType: ItemType,
    checked: bool,
    parentId: string,
    contexts: Option<seq<string>>,
    documentUrlPatterns: Option<seq<string>>,
    icons: Option<seq<AddonInfo.IconEntry>>)

  predicate IsRadio(item: ExtraItem)
  {
    item.itemType == Radio
  }

  /** The position of the first entry with the given id, if any. */
  function FirstIndexOf(items: seq<ExtraItem>, id: string): (r: Option<nat>)
    ensures r.Some? ==> r.value < |items| && items[r.value].id == id
    ensures r.Some? ==> forall k :: 0 <= k < r.value ==> items[k].id != id
    ensures r.None? ==> forall k :: 0 <= k < |items| ==> items[k].id != id
    decreases |items|
  {
    if items == [] then None
    else if items[0].id == id then Some(0)
    else match FirstIndexOf(items[1..], id)
      case None => None
      case Some(k) => Some(k + 1)
  }
}
