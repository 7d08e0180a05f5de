# Tab context menu: a verified model of its decision rules

This project models the decision rules inside the sidebar's tab context menu
(`webextensions/sidebar/tab-context-menu.js`), with the window's tabs and
each add-on's contributed menu items as plain sequences of records:

- **Close commands.** Which tabs "Close Tabs to the End", "Close Other Tabs"
  and "Close Tab" remove.
- **Check state.** How a click on a contributed checkbox or radio item
  rewrites the owner's item list in place.
- **Menu assembly.** How the contributed part of the menu is built:
  - which items apply to a tab;
  - which item nests under which, through the `knownItems` dictionary;
  - how an add-on with one top-level item is collapsed into that item;
  - when the separator is added.
- **Context descriptors.** What the menu is told about the context tab:
  - the state words;
  - the tab-count classes;
  - the `checked`, `wasChecked` and `modifiers` fields of a click message;
  - which entries of the reopen-in-container selector are hidden.
- **Add-on info.** An add-on's display name, with its id-based fallback, and
  the choice of its icon.

Source files and modules:

| file | module | flavour |
|---|---|---|
| `sequences.dfy` | `Options`, `Sequences` | generic sequence functions used throughout: filtering, selection by flags, subsequences, flattening |
| `tab_selection.dfy` | `TabSelection` | the close-tab rules; "Close Tabs to the End" and "Close Tab" are loops, "Close Other Tabs" is a filter |
| `extra_items.dfy` | `ExtraItems` | the contributed-item record |
| `check_state.dfy` | `CheckState` | the checkbox and radio updates, in place on an `array` |
| `menu_tree.dfy` | `MenuTree` | the filtering loop, the `knownItems` loop, the tree, and the collapse and separator rules |
| `context.dfy` | `MenuContext` | the `push` sequences for state words and modifiers, the count classes, the click flags, the container selector |
| `addon_info.dfy` | `AddonInfo` | `getAddonName` and `chooseIconForAddon` |

Conventions:

- **Falsy values.** A falsy `parentId` or add-on name is the empty string.
- **Absent fields.** An absent `contexts`, `documentUrlPatterns`, `icons` or
  `mutedInfo` is `None`.
- **Item types.** An item type other than checkbox, radio or separator is
  `Normal`.
- **URL patterns.** The match between an item's `documentUrlPatterns` and the
  context tab is a parameter (`urlMatches`).
- **Platform.** The browser's platform string is a parameter.
- **Item ids.** Item ids are taken as strings and compared exactly. The
  source compares `itemData.id` with `item.dataset.itemId` using loose `==`
  and `!=` (lines 600, 626, 631), so a numeric id `1` also matches `"01"`;
  the model does not capture that conversion.
- **Tree positions.** The tree's nodes are keyed by their position in the
  list of built items.

Five source details shape the model:

- **Radio group.** When the first entry bearing the clicked id is not itself
  a radio, the reused `Set` is cleared at that entry and then collects the
  radio run that follows it. `CheckState.RadioGroup` models exactly that
  run.
- **Collapse rule.** `case 1:` of the collapse `switch` falls through into
  `default`. The promoted node is therefore appended twice to the same
  fragment. It ends up there once, and `MenuTree.Contribution` contributes
  it once.
- **Icon sort.** `chooseIconForAddon` sorts sizes without a comparator, so it
  compares their decimal strings: 128 comes before 32, and 10 before 8.
  `AddonInfo.ChooseIconSize` uses that order.
  `AddonInfo.ChooseIconSizeStringOrder` shows both examples.
- **Icon URL scheme.** The scheme test `/^\w+:\/\//` admits only word
  characters before `://`. A URL whose scheme holds a `-`, `+` or `.`, such as
  `moz-extension://...`, is therefore taken as relative and prefixed with the
  add-on's origin. `AddonInfo.IconUrl` keeps this behaviour, and
  `AddonInfo.ExtensionUrlIsPrefixed` shows it.
- **Default icon and collapse.** The add-on's icon goes to the single item
  with an empty `parentId` (line 119), while the collapse counts top-level
  nodes, which include items whose parent id is unknown (lines 128-134).
  The item that takes the icon is therefore not always the one promoted,
  and a promoted orphan takes no icon. `MenuTree.WithDefaultIcon` and
  `MenuTree.Contribution` keep both rules as they are.

## Model

| member | source | states |
|---|---|---|
| TabSelection.FirstKept | webextensions/sidebar/tab-context-menu.js:500-503 | the position of the first tab in window order whose id is kept, or none when no tab is kept |
| TabSelection.CloseTabsToTheEnd | webextensions/sidebar/tab-context-menu.js:493-507 | the scan with the `after` flag collects exactly `TabsToTheEnd`: the closable tabs strictly after the first kept tab, in window order, and nothing when no tab is kept |
| TabSelection.TabsToTheEndMembers | webextensions/sidebar/tab-context-menu.js:495-507 | a tab is closed by "Close Tabs to the End" iff a kept tab exists, the tab sits strictly after the first one, and the tab is neither kept nor pinned |
| TabSelection.NothingBeforeFirstKeptCloses | webextensions/sidebar/tab-context-menu.js:500-507 | in a window with distinct tab ids, no tab at or before the first kept tab is closed |
| TabSelection.CloseOtherTabs | webextensions/sidebar/tab-context-menu.js:513-518 | every tab that is neither pinned nor kept has its id closed, and every closed id is that of such a tab |
| TabSelection.KeptTabsNeverClosed | webextensions/sidebar/tab-context-menu.js:497-518 | the kept ids are the context tab's alone without a multiselection, and include every selected tab with one; no kept id is closed by "Close Other Tabs" or "Close Tabs to the End" |
| TabSelection.CloseOtherTabsInOrder | webextensions/sidebar/tab-context-menu.js:518 | the tabs "Close Other Tabs" removes, and their ids, keep window order |
| TabSelection.ToTheEndIsSuffixOfOthers | webextensions/sidebar/tab-context-menu.js:493-518 | the ids "Close Tabs to the End" removes are a suffix, and so a subsequence, of those "Close Other Tabs" removes |
| TabSelection.CloseTabRemovals | webextensions/sidebar/tab-context-menu.js:529-539 | a multiselection is removed last tab first (removal k is the tab at position n-1-k), removing exactly the selected ids; otherwise only the context tab is removed |
| ExtraItems.FirstIndexOf | webextensions/sidebar/tab-context-menu.js:599-601 | the position of the first entry with the given id, and none when no entry has it |
| CheckState.ToggleCheckbox | webextensions/sidebar/tab-context-menu.js:597-610 | the node's `checked` class flips, and the array becomes `CheckboxUpdate` of the old list with the new state |
| CheckState.CheckboxUpdateEffect | webextensions/sidebar/tab-context-menu.js:599-610 | only the first entry with the clicked id takes the new state; the length and every other entry and field stay the same |
| CheckState.CheckboxClickTwice | webextensions/sidebar/tab-context-menu.js:597-610 | two checkbox clicks on the same id restore the list |
| CheckState.RunStart | webextensions/sidebar/tab-context-menu.js:616-625 | the start of the radio run ending just before a position: all entries from it on are radios, and the entry before it is not |
| CheckState.RunEnd | webextensions/sidebar/tab-context-menu.js:616-625 | the end of the radio run starting at a position: all entries up to it are radios, and the entry at it is not |
| CheckState.RadioGroupIsMaximalRun | webextensions/sidebar/tab-context-menu.js:614-628 | when the clicked id first occurs on a radio entry, the group is the maximal contiguous run of radio entries containing it |
| CheckState.CollectRadioGroup | webextensions/sidebar/tab-context-menu.js:614-628 | the reused-set scan yields no group iff no entry has the clicked id, and otherwise exactly the positions of the group |
| CheckState.SelectRadio | webextensions/sidebar/tab-context-menu.js:613-646 | a group is found iff some entry has the id, and the array becomes `RadioUpdate` of the old list |
| CheckState.RadioUpdateEffect | webextensions/sidebar/tab-context-menu.js:629-631 | inside the group each entry is checked iff it has the clicked id, and the entry first bearing the id is checked when it is a radio, and left as it was when it is not; nothing outside the group changes; nothing changes when no entry has the id; only `checked` is ever rewritten |
| CheckState.RadioLeavesOneChecked | webextensions/sidebar/tab-context-menu.js:629-631 | when no other entry of the group has the clicked id, exactly the clicked entry of the group is checked afterwards |
| CheckState.RadioUpdateIdempotent | webextensions/sidebar/tab-context-menu.js:613-631 | a second click on the same radio changes nothing |
| MenuTree.FilterItems | webextensions/sidebar/tab-context-menu.js:109-118 | the filtering loop builds exactly `KeptItems`, the items that pass both `continue` tests, in order |
| MenuTree.KeptItemsRule | webextensions/sidebar/tab-context-menu.js:110-118 | the built items are a subsequence of the owner's list; an item is kept iff its contexts are absent or include "tab", and, with a context tab, its URL patterns are absent or match |
| MenuTree.WithDefaultIcon | webextensions/sidebar/tab-context-menu.js:119-122 | only the icons of the single item without a parent id can change; it takes the add-on's icons when it had none, and only when it is the only such item |
| MenuTree.ParentIndex | webextensions/sidebar/tab-context-menu.js:126-137 | an item nests under an earlier item iff its parent id is set and some earlier built item has that id; the parent is the latest such item |
| MenuTree.AssignParents | webextensions/sidebar/tab-context-menu.js:125-137 | the `knownItems` loop places every built item under `ParentIndex` (its invariant: `knownItems` maps each id to the latest item so far with that id) |
| MenuTree.Parents | webextensions/sidebar/tab-context-menu.js:126-137 | every parent comes before its child |
| MenuTree.ChildNodes | webextensions/sidebar/tab-context-menu.js:126-137 | every node placed under a parent is a built item with that parent, and carries that item |
| MenuTree.ChildNodesKeys | webextensions/sidebar/tab-context-menu.js:126-137 | the nodes under a parent are exactly the built items with that parent, in their order in the built list |
| MenuTree.ForestHoldsEachItemOnce | webextensions/sidebar/tab-context-menu.js:126-137 | each built item appears exactly once in the assembled sub-menu tree |
| MenuTree.ContributionShowsAll | webextensions/sidebar/tab-context-menu.js:138-147 | an add-on contributes nothing for no top-level nodes, the node itself for one, and its own entry holding all of them for more; in every case it shows exactly its top-level nodes, as at most one entry |
| MenuTree.SectionShape | webextensions/sidebar/tab-context-menu.js:149-155 | the contributed part is empty iff every add-on contributed nothing; otherwise it starts with the only separator |
| MenuTree.ExtraSectionShape | webextensions/sidebar/tab-context-menu.js:97-155 | the whole contributed part is empty iff no add-on contributes; otherwise it is one leading separator followed by every add-on's top-level nodes, in registration order |
| MenuTree.Rebuild | webextensions/sidebar/tab-context-menu.js:97-155 | the per-add-on loop of `rebuild` produces `ExtraSection` |
| MenuContext.TabStates | webextensions/sidebar/tab-context-menu.js:331-345 | the `states.push` sequence yields the state words whose flags hold, in the order of the word list |
| MenuContext.TabStatesRule | webextensions/sidebar/tab-context-menu.js:331-345 | the state list is a subsequence of active, pinned, audible, muted, discarded, incognito, multiselected, and each word is present iff its flag holds (muted iff `mutedInfo.muted`) |
| MenuContext.ClassesFor | webextensions/sidebar/tab-context-menu.js:349-367 | has-multiple-tabs iff more than one tab; has-normal-tabs iff at least one normal tab; has-multiple-normal-tabs iff at least two normal tabs |
| MenuContext.ClickChecked | webextensions/sidebar/tab-context-menu.js:571-572 | a radio reports checked; a checkbox reports the negation of its class; both report their class as wasChecked; other items report neither |
| MenuContext.ClickReportsStoredState | webextensions/sidebar/tab-context-menu.js:571-572 | the `checked` a click reports is the value the owner's list stores for the clicked entry after the click |
| MenuContext.ClickModifiers | webextensions/sidebar/tab-context-menu.js:561-570 | the `modifiers.push` sequence yields the selected modifier names in fixed order |
| MenuContext.ClickModifiersRule | webextensions/sidebar/tab-context-menu.js:561-570 | Command iff meta, Ctrl iff control, MacCtrl iff control on a platform starting with "mac" in any case, Shift iff shift; MacCtrl never appears without Ctrl |
| MenuContext.SelectorHidden | webextensions/sidebar/tab-context-menu.js:175-196 | without a context tab nothing changes; the result covers every selector entry |
| MenuContext.SelectorHidesCurrentContainer | webextensions/sidebar/tab-context-menu.js:177-194 | when no container claims the default store's id, an entry is hidden iff it would reopen the tab in its own cookie store |
| MenuContext.SelectorShowsDefaultNamedContainer | webextensions/sidebar/tab-context-menu.js:181-187 | in any selector, for a tab outside any container, every container entry whose value is "firefox-default" stays shown |
| AddonInfo.StripAddonSuffix | webextensions/sidebar/tab-context-menu.js:204 | the result is a prefix of the id; it equals the id iff no '@' with a following character matches; otherwise it is cut at the first such '@' |
| AddonInfo.StripLocalAtDomain | webextensions/sidebar/tab-context-menu.js:204 | an id `local@domain` with no '@' in the local part falls back to its local part |
| AddonInfo.StripWithoutAt | webextensions/sidebar/tab-context-menu.js:204 | an id without '@' is its own fallback name |
| AddonInfo.AddonName | webextensions/sidebar/tab-context-menu.js:200-205 | this extension shows its own name; another add-on shows its registered name, or, when that is empty, exactly its id with the `@...` suffix stripped (a prefix of the id) |
| AddonInfo.ChooseIconSize | webextensions/sidebar/tab-context-menu.js:219-225 | the chosen size is a non-zero key, below 16 whenever a key below 16 exists, and first in decimal-string order among the candidates; there is none iff there are no keys or 0 is a key |
| AddonInfo.ChooseIconSizeStringOrder | webextensions/sidebar/tab-context-menu.js:219 | of 32 and 128, 128 is chosen; of 8 and 10, 10 is chosen |
| AddonInfo.IconUrl | webextensions/sidebar/tab-context-menu.js:227-228 | a URL that starts with word characters (`[A-Za-z0-9_]`) followed by `://` is kept; any other, including `moz-extension://...`, becomes the add-on's `moz-extension://` origin followed by the URL without one leading '/' |
| AddonInfo.ExtensionUrlIsPrefixed | webextensions/sidebar/tab-context-menu.js:227-228 | `moz-extension://a/i.png` fails the scheme test, because `-` is not a word character, and is prefixed with the add-on's origin once more |
| AddonInfo.HttpsUrlIsKept | webextensions/sidebar/tab-context-menu.js:227-228 | `https://a/i.png` passes the scheme test and is kept as it is |
| AddonInfo.ChooseIcon | webextensions/sidebar/tab-context-menu.js:216-230 | no icon iff there are no icons or 0 is a key; otherwise the URL of an icon whose size is the one `ChooseIconSize` picks, made absolute |

## Left out

- DOM work is not modelled: element creation, `classList`/`style.display`/attribute writes, Range deletion, titles and labels. The model keeps only the decisions they encode.
- `updateMultiselectedLabel` is not modelled: it chooses between two label attributes and writes DOM text.
- `MenuUI`, `open`/`close` and the `mIsDirty` handshake are not modelled, because they depend on asynchronous re-entry.
- All `browser.*` calls are not modelled: tabs, windows, sessions, bookmarks, runtime messaging, i18n, notifications. Their inputs (the window's tabs, the localized extension name, the platform string) are parameters.
- `matchPatternToRegExp` and `matchesToCurrentTab` are the abstract parameter `urlMatches`. Invalid patterns, which throw in the source, are not modelled.
- The per-item icon of `buildExtraItem` is not modelled separately. It uses the same `chooseIconForAddon`, modelled as `AddonInfo.ChooseIcon`.
- Duplicate and reopen-in-container, the other `onCommand` branches (reload, mute, pin, bookmark, undo, new window, and so on), and the middle-button guard are not modelled.
- Event-listener wiring, `importExtraItems` and `configs` lookups are not modelled.
- `TabSelection.CloseTabsToTheEnd`, `TabSelection.CloseOtherTabs`, `TabSelection.CloseTabRemovals`: a context tab is assumed present. With none, the source throws on `contextTab.id`.
- `TabSelection.CloseTabsToTheEnd` and `TabSelection.CloseOtherTabs`: the cancellable `onTabsClosing` dispatch and the removal call are not modelled.
- `CheckState.SelectRadio`, `CheckState.ToggleCheckbox`: the owner's list is assumed registered. The source throws when `mExtraItems.get` finds none.
- `CheckState.SelectRadio`, `CheckState.ToggleCheckbox`: the class updates on the radio nodes and the status messages are not modelled.
- `MenuTree.WithDefaultIcon`: the source writes the default icons into the stored item object, so they persist after the rebuild. The model does not capture this aliasing; the new value is used for this build only.
- `MenuTree.WithDefaultIcon`: `TSTAPI.getAddon(id)` returning nothing throws in the source. The model takes a missing add-on's icons as empty.
- `MenuTree.AssignParents`: for a parent id that names a property inherited by a plain JavaScript object (such as `constructor`), `knownItems[item.parentId]` is that inherited value, not a menu node, so `prepareAsSubmenu(parent)` (line 130) throws and aborts the rebuild in the source. The model treats such ids like any other id.
- `MenuTree.TopLevel`, `MenuTree.ExtraSection`: the tree keeps the item records, not their DOM nodes or titles; per-item enabled/disabled state is not modelled.
- `MenuContext.TabStates`: the joining of the words with spaces into `data-tab-states` is not modelled, and neither is the `data-tab-id` attribute.
- `MenuContext.ClassesFor`: the counts are parameters; counting the window's tabs and normal tabs is not modelled.
- `MenuContext.ClickChecked`: the node's `checked` class is a parameter. The message's other fields and where it is sent are not modelled.
- `MenuContext.SelectorHidden`: it does not model the remembered `mLastContextualIdentity`.
- `MenuContext.SelectorHidden`: the source applies the rule only from `rebuild`, after its early return when no add-on has contributed items (lines 91-95). With no contributed items the selector is not updated. The model states the rule without that caller condition.
- `AddonInfo.ChooseIconSize`: icon keys are assumed to be canonical decimal naturals. Keys that `parseInt` maps to NaN or truncates are not modelled, so the filter's treatment of NaN does not arise.
- `AddonInfo.ChooseIcon`: the add-on's internal id is a string parameter; the fallback from `addon.internalId` to `params.internalId` is not modelled.
- `AddonInfo.AddonName`: `getAddon` returning nothing is modelled as an empty registered name.
