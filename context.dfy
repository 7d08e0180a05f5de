/**
 * What the tab context menu is told about the tab it was opened on and
 * about the window, and what a click on a contributed item reports to the
 * item's owner.
 */
module MenuContext {
  import opened Options
  import opened Sequences
  import opened ExtraItems
  import CheckState

  // ---------------------------------------------------------------------
  // Tab states and tab counts

  /** The fields of the context tab that the menu reads. `mutedInfo` is `None` when absent. */
  datatype ContextTab = ContextTab(
    id: int,
    active: bool,
    pinned: bool,
    audible: bool,
    mutedInfo: Option<bool>,
    discarded: bool,
    incognito: bool,
    cookieStoreId: string)

  /** The state words, in the order they are pushed. */
  const StateWords: seq<string> := ["active", "pinned", "audible", "muted", "discarded", "incognito", "multiselected"]

  /** Whether each state word applies to the context tab. */
  function StateFlags(tab: ContextTab, multiselected: bool): (flags: seq<bool>)
    ensures |flags| == |StateWords|
  {
    [tab.active, tab.pinned, tab.audible, tab.mutedInfo == Some(true), tab.discarded, tab.incognito, multiselected]
  }

  /** The `states.push` sequence of `applyContext`, whose result becomes `data-tab-states`. */
  method TabStates(tab: ContextTab, multiselected: bool) returns (states: seq<string>)
    ensures states == Select(StateWords, StateFlags(tab, multiselected))
  {
    ghost var flags := StateFlags(tab, multiselected);
    states := [];
    if tab.active {
      states := states + ["active"];
    }
    assert states == SelectPrefix(StateWords, flags, 1);
    if tab.pinned {
      states := states + ["pinned"];
    }
    assert states == SelectPrefix(StateWords, flags, 2);
    if tab.audible {
      states := states + ["audible"];
    }
    assert states == SelectPrefix(StateWords, flags, 3);
    if tab.mutedInfo.Some? && tab.mutedInfo.value {
      states := states + ["muted"];
    }
    assert states == SelectPrefix(StateWords, flags, 4);
    if tab.discarded {
      states := states + ["discarded"];
    }
    assert states == SelectPrefix(StateWords, flags, 5);
    if tab.incognito {
      states := states + ["incognito"];
    }
    assert states == SelectPrefix(StateWords, flags, 6);
    if multiselected {
      states := states + ["multiselected"];
    }
    assert states == SelectPrefix(StateWords, flags, 7);
  }

  /**
   * The state list names each state exactly when it holds, in the fixed
   * order of `StateWords`.
   */
  lemma TabStatesRule(tab: ContextTab, multiselected: bool)
    ensures var states := Select(StateWords, StateFlags(tab, multiselected));
      IsSubsequence(states, StateWords) &&
      ("active" in states <==> tab.active) &&
      ("pinned" in states <==> tab.pinned) &&
      ("audible" in states <==> tab.audible) &&
      ("muted" in states <==> tab.mutedInfo == Some(true)) &&
      ("discarded" in states <==> tab.discarded) &&
      ("incognito" in states <==> tab.incognito) &&
      ("multiselected" in states <==> multiselected)
  {
    var flags := StateFlags(tab, multiselected);
    SelectIsSubsequence(StateWords, flags);
    SelectDistinct(StateWords, flags);
    assert StateWords[0] == "active" && StateWords[1] == "pinned" && StateWords[2] == "audible";
    assert StateWords[3] == "muted" && StateWords[4] == "discarded" && StateWords[5] == "incognito";
    assert StateWords[6] == "multiselected";
  }

  /** The three classes of the menu element that depend on tab counts. */
  datatype CountClasses = CountClasses(hasMultipleTabs: bool, hasNormalTabs: bool, hasMultipleNormalTabs: bool)

  /**
   * `has-multiple-tabs` from the number of tabs, and the two normal-tab
   * classes from the `switch` on the number of normal tabs.
   */
  function ClassesFor(tabCount: nat, normalCount: nat): (c: CountClasses)
    ensures c.hasMultipleTabs <==> tabCount > 1
    ensures c.hasNormalTabs <==> normalCount >= 1
    ensures c.hasMultipleNormalTabs <==> normalCount >= 2
    ensures c.hasMultipleNormalTabs ==> c.hasNormalTabs
  {
    var multiple := tabCount > 1;
    match normalCount
    case 0 => CountClasses(multiple, false, false)
    case 1 => CountClasses(multiple, true, false)
    case _ => CountClasses(multiple, true, true)
  }

  // ---------------------------------------------------------------------
  // The click message

  /** The `checked` and `wasChecked` fields of a click message. */
  datatype ClickChecks = ClickChecks(checked: bool, wasChecked: bool)

  /**
   * From the clicked node's classes: a radio always reports `checked`; a
   * checkbox reports the state after the click; both report the state
   * before it as `wasChecked`; any other item reports neither.
   * `classChecked` is whether the node carries the `checked` class.
   */
  function ClickChecked(itemType: ItemType, classChecked: bool): (c: ClickChecks)
    ensures itemType == Radio ==> c.checked && c.wasChecked == classChecked
    ensures itemType == Checkbox ==> c.checked == !classChecked && c.wasChecked == classChecked
    ensures itemType != Radio && itemType != Checkbox ==> !c.checked && !c.wasChecked
    ensures c.checked ==> itemType == Radio || itemType == Checkbox
  {
    var isToggle := itemType == Radio || itemType == Checkbox;
    ClickChecks(itemType == Radio || (itemType == Checkbox && !classChecked), isToggle && classChecked)
  }

  /**
   * The `checked` a click reports is what the owner's list stores for the
   * clicked entry afterwards, for checkboxes and for radios alike.
   */
  lemma ClickReportsStoredState(items: seq<ExtraItem>, id: string, j: nat, classChecked: bool)
    requires FirstIndexOf(items, id) == Some(j)
    ensures items[j].itemType == Checkbox ==>
      var c := ClickChecked(Checkbox, classChecked);
      CheckState.CheckboxUpdate(items, id, c.checked)[j].checked == c.checked
    ensures items[j].itemType == Radio ==>
      CheckState.RadioUpdate(items, id)[j].checked == ClickChecked(Radio, classChecked).checked
  {
    if items[j].itemType == Radio {
      CheckState.RadioUpdateEffect(items, id);
    }
  }

  /** The modifier names, in the order they are pushed. */
  const ModifierWords: seq<string> := ["Command", "Ctrl", "MacCtrl", "Shift"]

  /** `/^Mac/i.test(platform)`: the platform name starts with "mac" in any letter case. */
  predicate IsMacPlatform(platform: string)
  {
    |platform| >= 3 &&
    (platform[0] == 'M' || platform[0] == 'm') &&
    (platform[1] == 'A' || platform[1] == 'a') &&
    (platform[2] == 'C' || platform[2] == 'c')
  }

  function ModifierFlags(meta: bool, ctrl: bool, shift: bool, platform: string): (flags: seq<bool>)
    ensures |flags| == |ModifierWords|
  {
    [meta, ctrl, ctrl && IsMacPlatform(platform), shift]
  }

  /** The `modifiers.push` sequence for a click message. */
  method ClickModifiers(meta: bool, ctrl: bool, shift: bool, platform: string) returns (modifiers: seq<string>)
    ensures modifiers == Select(ModifierWords, ModifierFlags(meta, ctrl, shift, platform))
  {
    ghost var flags := ModifierFlags(meta, ctrl, shift, platform);
    modifiers := [];
    if meta {
      modifiers := modifiers + ["Command"];
    }
    assert modifiers == SelectPrefix(ModifierWords, flags, 1);
    if ctrl {
      modifiers := modifiers + ["Ctrl"];
      assert modifiers == SelectPrefix(ModifierWords, flags, 2);
      if IsMacPlatform(platform) {
        modifiers := modifiers + ["MacCtrl"];
      }
    }
    assert modifiers == SelectPrefix(ModifierWords, flags, 3);
    if shift {
      modifiers := modifiers + ["Shift"];
    }
    assert modifiers == SelectPrefix(ModifierWords, flags, 4);
  }

  /**
   * Each modifier is listed exactly when its key was held (`MacCtrl` when
   * Control was held on a Mac), in the fixed order, and `MacCtrl` never
   * comes without `Ctrl`.
   */
  lemma ClickModifiersRule(meta: bool, ctrl: bool, shift: bool, platform: string)
    ensures var m := Select(ModifierWords, ModifierFlags(meta, ctrl, shift, platform));
      IsSubsequence(m, ModifierWords) &&
      ("Command" in m <==> meta) &&
      ("Ctrl" in m <==> ctrl) &&
      ("MacCtrl" in m <==> ctrl && IsMacPlatform(platform)) &&
      ("Shift" in m <==> shift) &&
      ("MacCtrl" in m ==> "Ctrl" in m)
  {
    var flags := ModifierFlags(meta, ctrl, shift, platform);
    SelectIsSubsequence(ModifierWords, flags);
    SelectDistinct(ModifierWords, flags);
    assert ModifierWords[0] == "Command" && ModifierWords[1] == "Ctrl";
    assert ModifierWords[2] == "MacCtrl" && ModifierWords[3] == "Shift";
  }

  // ---------------------------------------------------------------------
  // The container selector

  /** The cookie store of tabs outside any container. */
  const DefaultCookieStore: string := "firefox-default"

  /** An entry of the "reopen in container" selector. */
  datatype SelectorEntry =
    | NoContainer                  // the entry for reopening outside any container
    | Container(value: string)     // the entry for one container, by cookie store id

  /** The cookie store an entry reopens the tab in. */
  function Target(e: SelectorEntry): string
  {
    match e
    case NoContainer => DefaultCookieStore
    case Container(value) => value
  }

  /**
   * `updateContextualIdentitiesSelector`: which entries are hidden for the
   * context tab's cookie store. For a tab outside any container the
   * no-container entry is hidden and every container shown; otherwise the
   * no-container entry is shown and the container whose value is the
   * tab's cookie store is hidden. Without a context tab nothing changes.
   */
  function SelectorHidden(entries: seq<SelectorEntry>, hidden: seq<bool>, contextCookieStore: Option<string>)
    : (r: seq<bool>)
    requires |hidden| == |entries|
    ensures |r| == |entries|
    ensures contextCookieStore.None? ==> r == hidden
  {
    match contextCookieStore
    case None => hidden
    case Some(store) =>
      var isDefault := store == DefaultCookieStore;
      seq(|entries|, i requires 0 <= i < |entries| =>
        match entries[i]
        case NoContainer => isDefault
        case Container(value) => !isDefault && value == store)
  }

  /**
   * When no container uses the default store's id, exactly the entries
   * that would reopen the tab where it already is are hidden.
   */
  lemma SelectorHidesCurrentContainer(entries: seq<SelectorEntry>, hidden: seq<bool>, store: string)
    requires |hidden| == |entries|
    requires forall i :: 0 <= i < |entries| ==> entries[i] != Container(DefaultCookieStore)
    ensures forall i :: 0 <= i < |entries| ==>
      (SelectorHidden(entries, hidden, Some(store))[i] <==> Target(entries[i]) == store)
  {
  }

  /**
   * A container that claims the default store's id stays shown for a tab
   * outside any container, although it would reopen the tab in the same
   * store.
   */
  lemma SelectorShowsDefaultNamedContainer(entries: seq<SelectorEntry>, hidden: seq<bool>)
    requires |hidden| == |entries|
    ensures forall i :: 0 <= i < |entries| && entries[i] == Container(DefaultCookieStore) ==>
      !SelectorHidden(entries, hidden, Some(DefaultCookieStore))[i]
  {
  }

}
