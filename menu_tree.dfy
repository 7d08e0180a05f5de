/**
 * How the contributed part of the tab context menu is assembled from each
 * add-on's flat item list: which items apply, which item nests under which,
 * how an add-on's items are collapsed into the menu, and where the
 * separator goes.
 */
module MenuTree {
  import opened Options
  import opened Sequences
  import opened ExtraItems
  import AddonInfo

  // ---------------------------------------------------------------------
  // Which items are built

  /**
   * An item is built unless it names `contexts` without "tab", or there is
   * a context tab and the item's `documentUrlPatterns` do not match it.
   * `urlMatches` stands for the match-pattern test against the context
   * tab's URL.
   */
  predicate Applicable(item: ExtraItem, hasContextTab: bool, urlMatches: seq<string> -> bool)
  {
    && !(item.contexts.Some? && "tab" !in item.contexts.value)
    && !(hasContextTab && item.documentUrlPatterns.Some? && !urlMatches(item.documentUrlPatterns.value))
  }

  function KeptItems(items: seq<ExtraItem>, hasContextTab: bool, urlMatches: seq<string> -> bool): seq<ExtraItem>
  {
    Filter(items, it => Applicable(it, hasContextTab, urlMatches))
  }

  /** The filtering loop that fills `toBeBuiltItems`. */
  method FilterItems(items: seq<ExtraItem>, hasContextTab: bool, urlMatches: seq<string> -> bool)
    returns (toBeBuilt: seq<ExtraItem>)
    ensures toBeBuilt == KeptItems(items, hasContextTab, urlMatches)
  {
    toBeBuilt := [];
    var i := 0;
    while i < |items|
      invariant 0 <= i <= |items|
      invariant toBeBuilt == KeptItems(items[..i], hasContextTab, urlMatches)
    {
      var item := items[i];
      assert items[..i + 1] == items[..i] + [item];
      FilterAppend(items[..i], [item], it => Applicable(it, hasContextTab, urlMatches));
      i := i + 1;
      if item.contexts.Some? && "tab" !in item.contexts.value {
        continue;
      }
      if hasContextTab && item.documentUrlPatterns.Some? && !urlMatches(item.documentUrlPatterns.value) {
        continue;
      }
      toBeBuilt := toBeBuilt + [item];
    }
    assert items[..i] == items;
  }

  /**
   * The built items keep the order of the owner's list, and an item is
   * dropped exactly when its contexts leave out "tab" or, with a context
   * tab, its URL patterns fail.
   */
  lemma KeptItemsRule(items: seq<ExtraItem>, hasContextTab: bool, urlMatches: seq<string> -> bool)
    ensures IsSubsequence(KeptItems(items, hasContextTab, urlMatches), items)
    ensures forall it :: it in KeptItems(items, hasContextTab, urlMatches) <==>
      && it in items
      && (it.contexts.None? || "tab" in it.contexts.value)
      && (!hasContextTab || it.documentUrlPatterns.None? || urlMatches(it.documentUrlPatterns.value))
  {
    FilterIsSubsequence(items, it => Applicable(it, hasContextTab, urlMatches));
  }

  /** The position of the first item without a parent id, if any. */
  function FirstParentless(built: seq<ExtraItem>): (r: Option<nat>)
    ensures r.Some? ==> r.value < |built| && built[r.value].parentId == ""
    ensures r.Some? ==> forall k :: 0 <= k < r.value ==> built[k].parentId != ""
    ensures r.None? ==> forall k :: 0 <= k < |built| ==> built[k].parentId != ""
    decreases |built|
  {
    if built == [] then None
    else if built[0].parentId == "" then Some(0)
    else match FirstParentless(built[1..])
      case None => None
      case Some(k) => Some(k + 1)
  }

  /**
   * When exactly one built item has no parent id and it has no icons, it
   * takes the add-on's own icons. Nothing else changes.
   */
  function WithDefaultIcon(built: seq<ExtraItem>, addonIcons: seq<AddonInfo.IconEntry>): (r: seq<ExtraItem>)
    ensures |r| == |built|
    ensures forall k :: 0 <= k < |built| ==> r[k] == built[k].(icons := r[k].icons)
    ensures forall k :: 0 <= k < |built| && r[k] != built[k] ==>
      built[k].parentId == "" && built[k].icons.None? && r[k].icons == Some(addonIcons) &&
      |Filter(built, (it: ExtraItem) => it.parentId == "")| == 1
    ensures |Filter(built, (it: ExtraItem) => it.parentId == "")| == 1 ==>
      exists k :: 0 <= k < |built| && built[k].parentId == "" && r[k].icons.Some?
  {
    var top := Filter(built, (it: ExtraItem) => it.parentId == "");
    if |top| == 1 then
      assert top[0] in built;
      var k := FirstParentless(built).value;
      if built[k].icons.None? then built[k := built[k].(icons := Some(addonIcons))] else built
    else built
  }

  // ---------------------------------------------------------------------
  // Which item nests under which

  /** The last position before `upTo` holding an item with this id. */
  function LastIndexWithId(built: seq<ExtraItem>, id: string, upTo: nat): (r: Option<nat>)
    requires upTo <= |built|
    ensures r.Some? ==> r.value < upTo && built[r.value].id == id
    ensures r.Some? ==> forall m :: r.value < m < upTo ==> built[m].id != id
    ensures r.None? ==> forall m :: 0 <= m < upTo ==> built[m].id != id
    decreases upTo
  {
    if upTo == 0 then None
    else if built[upTo - 1].id == id then Some(upTo - 1)
    else LastIndexWithId(built, id, upTo - 1)
  }

  /**
   * The item a built item nests under: the latest earlier built item whose
   * id is its parent id. An item without a parent id, or whose parent id
   * no earlier built item has, is top-level.
   */
  function ParentIndex(built: seq<ExtraItem>, i: nat): (r: Option<nat>)
    requires i < |built|
    ensures r.Some? <==> built[i].parentId != "" && exists k :: 0 <= k < i && built[k].id == built[i].parentId
    ensures r.Some? ==> r.value < i && built[r.value].id == built[i].parentId
    ensures r.Some? ==> forall m :: r.value < m < i ==> built[m].id != built[i].parentId
  {
    if built[i].parentId == "" then None else LastIndexWithId(built, built[i].parentId, i)
  }

  /** Every parent comes before its children. */
  predicate WellFormed(parents: seq<Option<nat>>)
  {
    forall i :: 0 <= i < |parents| && parents[i].Some? ==> parents[i].value < i
  }

  function Parents(built: seq<ExtraItem>): (ps: seq<Option<nat>>)
    ensures |ps| == |built| && WellFormed(ps)
    ensures forall i :: 0 <= i < |built| ==> ps[i] == ParentIndex(built, i)
  {
    seq(|built|, i requires 0 <= i < |built| => ParentIndex(built, i))
  }

  /** `knownItems[id]` as an option. */
  function Known(knownItems: map<string, nat>, id: string): Option<nat>
  {
    if id in knownItems then Some(knownItems[id]) else None
  }

  /**
   * The loop that places each built item: under the item `knownItems`
   * records for its parent id when there is one, else at the top; then the
   * item is recorded under its own id, replacing any earlier one.
   */
  method AssignParents(built: seq<ExtraItem>) returns (parents: seq<Option<nat>>)
    ensures |parents| == |built|
    ensures forall i :: 0 <= i < |built| ==> parents[i] == ParentIndex(built, i)
  {
    var knownItems: map<string, nat> := map[];
    parents := [];
    var i := 0;
    while i < |built|
      invariant 0 <= i <= |built|
      invariant |parents| == i
      invariant forall k :: 0 <= k < i ==> parents[k] == ParentIndex(built, k)
      invariant forall id :: Known(knownItems, id) == LastIndexWithId(built, id, i)
    {
      var item := built[i];
      if item.parentId != "" && item.parentId in knownItems {
        assert Known(knownItems, item.parentId) == LastIndexWithId(built, item.parentId, i);
        parents := parents + [Some(knownItems[item.parentId])];
      } else {
        assert item.parentId != "" ==> Known(knownItems, item.parentId) == LastIndexWithId(built, item.parentId, i);
        parents := parents + [None];
      }
      knownItems := knownItems[item.id := i];
      i := i + 1;
    }
  }

  // ---------------------------------------------------------------------
  // The tree

  /** A built item's node: its position among the built items, the item, and its sub-menu. */
  datatype MenuNode = MenuNode(key: nat, item: ExtraItem, children: seq<MenuNode>)

  function Subtree(built: seq<ExtraItem>, parents: seq<Option<nat>>, k: nat): (t: MenuNode)
    requires |parents| == |built| && k < |built|
    ensures t.key == k && t.item == built[k]
    decreases |built| - k, 0
  {
    MenuNode(k, built[k], ChildNodes(built, parents, Some(k), k + 1))
  }

  /**
   * The nodes at or after position `from` placed under `parent` (`None`:
   * the add-on's own sub-menu), each with its own sub-menu: exactly the
   * items with that parent, in the order of the built list.
   */
  function ChildNodes(built: seq<ExtraItem>, parents: seq<Option<nat>>, parent: Option<nat>, from: nat)
    : (r: seq<MenuNode>)
    requires |parents| == |built| && from <= |built|
    ensures forall n :: n in r ==> from <= n.key < |built| && parents[n.key] == parent && n.item == built[n.key]
    decreases |built| - from, 1
  {
    if from == |built| then []
    else
      var rest := ChildNodes(built, parents, parent, from + 1);
      if parents[from] == parent then [Subtree(built, parents, from)] + rest else rest
  }

  /** The keys of a list of nodes. */
  function Keys(ns: seq<MenuNode>): (ks: seq<nat>)
    ensures |ks| == |ns|
    decreases |ns|
  {
    if ns == [] then [] else [ns[0].key] + Keys(ns[1..])
  }

  lemma KeysCons(n: MenuNode, rest: seq<MenuNode>)
    ensures Keys([n] + rest) == [n.key] + Keys(rest)
  {
    assert ([n] + rest)[1..] == rest;
  }

  predicate Increasing(ks: seq<nat>)
  {
    forall a, b :: 0 <= a < b < |ks| ==> ks[a] < ks[b]
  }

  lemma IncreasingCons(k: nat, ks: seq<nat>)
    requires Increasing(ks) && forall c :: c in ks ==> k < c
    ensures Increasing([k] + ks)
  {
    forall a, b | 0 <= a < b < |[k] + ks|
      ensures ([k] + ks)[a] < ([k] + ks)[b]
    {
      assert ([k] + ks)[b] == ks[b - 1] && ks[b - 1] in ks;
    }
  }

  /** `ChildNodes` places under `parent` only items with that parent. */
  lemma {:induction false} ChildNodesKeysSound(built: seq<ExtraItem>, parents: seq<Option<nat>>, parent: Option<nat>, from: nat)
    requires |parents| == |built| && from <= |built|
    ensures forall c :: c in Keys(ChildNodes(built, parents, parent, from)) ==>
      from <= c < |built| && parents[c] == parent
    decreases |built| - from
  {
    if from < |built| {
      ChildNodesKeysSound(built, parents, parent, from + 1);
      var rest := ChildNodes(built, parents, parent, from + 1);
      if parents[from] == parent {
        var sub := Subtree(built, parents, from);
        assert ChildNodes(built, parents, parent, from) == [sub] + rest;
        KeysCons(sub, rest);
      }
    }
  }

  /** `ChildNodes` places under `parent` every item with that parent. */
  lemma {:induction false} ChildNodesKeysComplete(built: seq<ExtraItem>, parents: seq<Option<nat>>, parent: Option<nat>, from: nat)
    requires |parents| == |built| && from <= |built|
    ensures forall c :: from <= c < |built| && parents[c] == parent ==>
      c in Keys(ChildNodes(built, parents, parent, from))
    decreases |built| - from
  {
    if from < |built| {
      ChildNodesKeysComplete(built, parents, parent, from + 1);
      var rest := ChildNodes(built, parents, parent, from + 1);
      if parents[from] == parent {
        var sub := Subtree(built, parents, from);
        assert ChildNodes(built, parents, parent, from) == [sub] + rest;
        KeysCons(sub, rest);
      }
    }
  }

  /** `ChildNodes` keeps the order of the built list. */
  lemma {:induction false} ChildNodesInOrder(built: seq<ExtraItem>, parents: seq<Option<nat>>, parent: Option<nat>, from: nat)
    requires |parents| == |built| && from <= |built|
    ensures Increasing(Keys(ChildNodes(built, parents, parent, from)))
    decreases |built| - from
  {
    if from < |built| {
      ChildNodesInOrder(built, parents, parent, from + 1);
      ChildNodesKeysSound(built, parents, parent, from + 1);
      var rest := ChildNodes(built, parents, parent, from + 1);
      if parents[from] == parent {
        var sub := Subtree(built, parents, from);
        assert ChildNodes(built, parents, parent, from) == [sub] + rest;
        KeysCons(sub, rest);
        IncreasingCons(from, Keys(rest));
      }
    }
  }

  /**
   * The nodes `ChildNodes` places under `parent` are those of exactly the
   * items with that parent, in increasing position.
   */
  lemma ChildNodesKeys(built: seq<ExtraItem>, parents: seq<Option<nat>>, parent: Option<nat>, from: nat)
    requires |parents| == |built| && from <= |built|
    ensures Increasing(Keys(ChildNodes(built, parents, parent, from)))
    ensures forall c :: c in Keys(ChildNodes(built, parents, parent, from)) <==>
      from <= c < |built| && parents[c] == parent
  {
    ChildNodesKeysSound(built, parents, parent, from);
    ChildNodesKeysComplete(built, parents, parent, from);
    ChildNodesInOrder(built, parents, parent, from);
  }

  /** The top level of an add-on's sub-menu. */
  function Forest(built: seq<ExtraItem>, parents: seq<Option<nat>>): seq<MenuNode>
    requires |parents| == |built|
  {
    ChildNodes(built, parents, None, 0)
  }

  /** The keys of a node and of everything under it, parent first. */
  function PreorderNode(n: MenuNode): seq<nat>
    decreases n, 1
  {
    [n.key] + PreorderSeq(n.children)
  }

  function PreorderSeq(ns: seq<MenuNode>): seq<nat>
    decreases ns, 0
  {
    if ns == [] then [] else PreorderNode(ns[0]) + PreorderSeq(ns[1..])
  }

  /** The highest ancestor of `i` (itself included) at position `from` or later. */
  function Ancestor(parents: seq<Option<nat>>, i: nat, from: nat): (a: nat)
    requires WellFormed(parents) && from <= i < |parents|
    ensures from <= a <= i
    ensures parents[a].None? || parents[a].value < from
    decreases i
  {
    match parents[i]
    case None => i
    case Some(k) => if k >= from then Ancestor(parents, k, from) else i
  }

  lemma {:induction false} AncestorStep(parents: seq<Option<nat>>, i: nat, from: nat)
    requires WellFormed(parents) && from < i < |parents|
    ensures Ancestor(parents, i, from) ==
      if parents[Ancestor(parents, i, from + 1)] == Some(from) then from else Ancestor(parents, i, from + 1)
    decreases i
  {
    match parents[i] {
      case None =>
      case Some(k) =>
        if k > from {
          AncestorStep(parents, k, from);
        } else if k == from {
          assert Ancestor(parents, from, from) == from;
        }
    }
  }

  /**
   * How often position `i` should occur among the nodes placed under
   * `parent` from `from` on: once when its highest ancestor at `from` or
   * later hangs under `parent`, else never.
   */
  function Expected(parents: seq<Option<nat>>, parent: Option<nat>, from: nat, i: nat): nat
    requires WellFormed(parents)
  {
    if from <= i < |parents| && parents[Ancestor(parents, i, from)] == parent then 1 else 0
  }

  lemma PreorderCons(n: MenuNode, rest: seq<MenuNode>)
    ensures PreorderSeq([n] + rest) == [n.key] + PreorderSeq(n.children) + PreorderSeq(rest)
  {
    assert ([n] + rest)[0] == n && ([n] + rest)[1..] == rest;
  }

  /** Each position occurs in the preorder of `ChildNodes` as often as `Expected` says. */
  lemma {:induction false} PreorderCounts(built: seq<ExtraItem>, parents: seq<Option<nat>>, parent: Option<nat>, from: nat)
    requires |parents| == |built| && WellFormed(parents) && from <= |built|
    requires parent.None? || parent.value < from
    ensures forall i: nat ::
      multiset(PreorderSeq(ChildNodes(built, parents, parent, from)))[i] == Expected(parents, parent, from, i)
    decreases |built| - from
  {
    var whole := ChildNodes(built, parents, parent, from);
    if from == |built| {
      assert whole == [];
    } else {
      var below := ChildNodes(built, parents, Some(from), from + 1);
      var rest := ChildNodes(built, parents, parent, from + 1);
      PreorderCounts(built, parents, Some(from), from + 1);
      PreorderCounts(built, parents, parent, from + 1);
      var mb := multiset(PreorderSeq(below));
      var mr := multiset(PreorderSeq(rest));
      var mw := multiset(PreorderSeq(whole));
      if parents[from] == parent {
        var sub := Subtree(built, parents, from);
        assert whole == [sub] + rest;
        PreorderCons(sub, rest);
        assert mw == multiset{from} + mb + mr;
      } else {
        assert whole == rest;
      }
      forall i: nat
        ensures mw[i] == Expected(parents, parent, from, i)
      {
        if i == from {
          assert Ancestor(parents, from, from) == from;
          assert mb[i] == 0 && mr[i] == 0;
        } else if from < i < |built| {
          AncestorStep(parents, i, from);
          assert mb[i] == Expected(parents, Some(from), from + 1, i);
          assert mr[i] == Expected(parents, parent, from + 1, i);
        } else {
          assert mb[i] == 0 && mr[i] == 0;
        }
      }
    }
  }

  /** Every built item appears exactly once in the assembled sub-menu. */
  lemma ForestHoldsEachItemOnce(built: seq<ExtraItem>, parents: seq<Option<nat>>)
    requires |parents| == |built| && WellFormed(parents)
    ensures forall i: nat :: multiset(PreorderSeq(Forest(built, parents)))[i] == if i < |built| then 1 else 0
  {
    PreorderCounts(built, parents, None, 0);
  }

  // ---------------------------------------------------------------------
  // Collapsing an add-on's items into the menu

  /** What the contributed part of the menu consists of. */
  datatype ExtraEntry =
    | MenuSeparator
    | AddonMenu(owner: string, name: string, icon: Option<string>, children: seq<MenuNode>)
    | Promoted(node: MenuNode)

  /**
   * What one add-on contributes, given the top level of its sub-menu:
   * nothing for none, the single node in place of the add-on's entry, or
   * the add-on's entry holding them all.
   */
  function Contribution(owner: string, name: string, icon: Option<string>, top: seq<MenuNode>): seq<ExtraEntry>
  {
    if |top| == 0 then []
    else if |top| == 1 then [Promoted(top[0])]
    else [AddonMenu(owner, name, icon, top)]
  }

  /** The nodes an entry presents at the menu's level or in its own sub-menu. */
  function Shown(e: ExtraEntry): seq<MenuNode>
  {
    match e
    case MenuSeparator => []
    case AddonMenu(_, _, _, children) => children
    case Promoted(node) => [node]
  }

  function ShownNodes(entries: seq<ExtraEntry>): seq<MenuNode>
    decreases |entries|
  {
    if entries == [] then [] else Shown(entries[0]) + ShownNodes(entries[1..])
  }

  /**
   * The collapse rule loses and adds no node: the contribution shows
   * exactly the top-level nodes, as at most one entry, which wraps them in
   * the add-on's entry only when there are two or more.
   */
  lemma ContributionShowsAll(owner: string, name: string, icon: Option<string>, top: seq<MenuNode>)
    ensures ShownNodes(Contribution(owner, name, icon, top)) == top
    ensures |Contribution(owner, name, icon, top)| <= 1
    ensures MenuSeparator !in Contribution(owner, name, icon, top)
    ensures Contribution(owner, name, icon, top) == [] <==> top == []
    ensures (exists e :: e in Contribution(owner, name, icon, top) && e.AddonMenu?) <==> |top| > 1
  {
    var c := Contribution(owner, name, icon, top);
    if c != [] {
      assert c[..0] == [];
    }
  }

  /** One add-on's registration as the menu sees it. */
  datatype AddonSource = AddonSource(
    owner: string,
    registeredName: string,
    registeredIcons: Option<seq<AddonInfo.IconEntry>>,
    internalId: string,
    items: seq<ExtraItem>)

  function IconsOf(a: AddonSource): seq<AddonInfo.IconEntry>
  {
    match a.registeredIcons
    case None => []
    case Some(icons) => icons
  }

  /** The built items of an add-on, after the single-item icon default. */
  function BuiltItems(a: AddonSource, hasContextTab: bool, urlMatches: seq<string> -> bool): seq<ExtraItem>
  {
    WithDefaultIcon(KeptItems(a.items, hasContextTab, urlMatches), IconsOf(a))
  }

  function TopLevel(a: AddonSource, hasContextTab: bool, urlMatches: seq<string> -> bool): seq<MenuNode>
  {
    var built := BuiltItems(a, hasContextTab, urlMatches);
    Forest(built, Parents(built))
  }

  /** The menu context shared by all add-ons during one rebuild. */
  datatype RebuildContext = RebuildContext(
    selfId: string,
    extensionName: string,
    hasContextTab: bool,
    urlMatches: seq<string> -> bool)

  function AddonContribution(a: AddonSource, ctx: RebuildContext): seq<ExtraEntry>
  {
    Contribution(
      a.owner,
      AddonInfo.AddonName(a.owner, ctx.selfId, ctx.extensionName, a.registeredName),
      AddonInfo.ChooseIcon(IconsOf(a), a.internalId),
      TopLevel(a, ctx.hasContextTab, ctx.urlMatches))
  }

  /** The add-ons' contributions, in the order of the registrations. */
  function Contributions(addons: seq<AddonSource>, ctx: RebuildContext): (cs: seq<seq<ExtraEntry>>)
    ensures |cs| == |addons|
  {
    seq(|addons|, i requires 0 <= i < |addons| => AddonContribution(addons[i], ctx))
  }

  /** A separator followed by the parts, or nothing when every part is empty. */
  function Section(parts: seq<seq<ExtraEntry>>): seq<ExtraEntry>
  {
    var body := Flatten(parts);
    if body == [] then [] else [MenuSeparator] + body
  }

  /** The contributed part of the menu. */
  function ExtraSection(addons: seq<AddonSource>, ctx: RebuildContext): seq<ExtraEntry>
  {
    Section(Contributions(addons, ctx))
  }

  /** The top-level nodes of all add-ons, in registration order. */
  function AllTopLevel(addons: seq<AddonSource>, ctx: RebuildContext): seq<MenuNode>
  {
    Flatten(seq(|addons|, i requires 0 <= i < |addons| => TopLevel(addons[i], ctx.hasContextTab, ctx.urlMatches)))
  }

  /** What `ContributionShowsAll` says, for one add-on's registration. */
  lemma AddonContributionShape(a: AddonSource, ctx: RebuildContext)
    ensures ShownNodes(AddonContribution(a, ctx)) == TopLevel(a, ctx.hasContextTab, ctx.urlMatches)
    ensures |AddonContribution(a, ctx)| <= 1
    ensures MenuSeparator !in AddonContribution(a, ctx)
  {
    ContributionShowsAll(a.owner,
      AddonInfo.AddonName(a.owner, ctx.selfId, ctx.extensionName, a.registeredName),
      AddonInfo.ChooseIcon(IconsOf(a), a.internalId),
      TopLevel(a, ctx.hasContextTab, ctx.urlMatches));
  }

  lemma {:induction false} ShownNodesAppend(a: seq<ExtraEntry>, b: seq<ExtraEntry>)
    ensures ShownNodes(a + b) == ShownNodes(a) + ShownNodes(b)
    decreases |a|
  {
    if a == [] {
      assert a + b == b;
    } else {
      ShownNodesAppend(a[1..], b);
      assert (a + b)[0] == a[0] && (a + b)[1..] == a[1..] + b;
    }
  }

  /** The nodes shown by the parts one after the other are those each part shows. */
  lemma {:induction false} ShownFlatten(parts: seq<seq<ExtraEntry>>)
    ensures ShownNodes(Flatten(parts)) == Flatten(seq(|parts|, i requires 0 <= i < |parts| => ShownNodes(parts[i])))
    decreases |parts|
  {
    if parts != [] {
      var n := |parts| - 1;
      ShownFlatten(parts[..n]);
      ShownNodesAppend(Flatten(parts[..n]), parts[n]);
      var shown := seq(|parts|, i requires 0 <= i < |parts| => ShownNodes(parts[i]));
      assert shown[..n] == seq(n, i requires 0 <= i < n => ShownNodes(parts[..n][i]));
    }
  }

  /**
   * The separator rule: a section of separator-free parts is empty exactly
   * when every part is; otherwise its only separator comes first, followed
   * by what the parts show.
   */
  lemma SectionShape(parts: seq<seq<ExtraEntry>>)
    requires forall i :: 0 <= i < |parts| ==> MenuSeparator !in parts[i]
    ensures var r := Section(parts);
      (r == [] <==> forall i :: 0 <= i < |parts| ==> parts[i] == []) &&
      (r != [] ==> r[0] == MenuSeparator && MenuSeparator !in r[1..]) &&
      (r != [] ==> ShownNodes(r[1..]) == Flatten(seq(|parts|, i requires 0 <= i < |parts| => ShownNodes(parts[i]))))
  {
    var body := Flatten(parts);
    FlattenEmpty(parts);
    FlattenMembers(parts, MenuSeparator);
    ShownFlatten(parts);
    if body != [] {
      assert ([MenuSeparator] + body)[1..] == body;
    }
  }

  /**
   * The separator rule and the collapse rule together: the contributed
   * part is empty exactly when no add-on contributes; otherwise it starts
   * with the only separator, and it shows every add-on's top-level nodes,
   * in registration order.
   */
  lemma ExtraSectionShape(addons: seq<AddonSource>, ctx: RebuildContext)
    ensures var r := ExtraSection(addons, ctx);
      (r == [] <==> forall i :: 0 <= i < |addons| ==> AddonContribution(addons[i], ctx) == []) &&
      (r != [] ==> r[0] == MenuSeparator && MenuSeparator !in r[1..]) &&
      (r != [] ==> ShownNodes(r[1..]) == AllTopLevel(addons, ctx))
  {
    var cs := Contributions(addons, ctx);
    forall i | 0 <= i < |addons|
      ensures MenuSeparator !in cs[i]
      ensures ShownNodes(cs[i]) == TopLevel(addons[i], ctx.hasContextTab, ctx.urlMatches)
    {
      AddonContributionShape(addons[i], ctx);
    }
    SectionShape(cs);
    assert seq(|cs|, i requires 0 <= i < |cs| => ShownNodes(cs[i]))
        == seq(|addons|, i requires 0 <= i < |addons| => TopLevel(addons[i], ctx.hasContextTab, ctx.urlMatches));
  }

  /**
   * The per-add-on loop of the rebuild: build the applicable items, nest
   * them, collapse them into the menu, and put the separator first when
   * anything was contributed.
   */
  method Rebuild(addons: seq<AddonSource>, ctx: RebuildContext) returns (entries: seq<ExtraEntry>)
    ensures entries == ExtraSection(addons, ctx)
  {
    var fragment: seq<ExtraEntry> := [];
    var i := 0;
    while i < |addons|
      invariant 0 <= i <= |addons|
      invariant fragment == Flatten(Contributions(addons, ctx)[..i])
    {
      var a := addons[i];
      var name := AddonInfo.AddonName(a.owner, ctx.selfId, ctx.extensionName, a.registeredName);
      var icon := AddonInfo.ChooseIcon(IconsOf(a), a.internalId);
      var toBeBuilt := FilterItems(a.items, ctx.hasContextTab, ctx.urlMatches);
      toBeBuilt := WithDefaultIcon(toBeBuilt, IconsOf(a));
      var parents := AssignParents(toBeBuilt);
      assert parents == Parents(toBeBuilt);
      var top := ChildNodes(toBeBuilt, parents, None, 0);
      fragment := fragment + Contribution(a.owner, name, icon, top);
      assert Contribution(a.owner, name, icon, top) == Contributions(addons, ctx)[i];
      assert Contributions(addons, ctx)[..i + 1][..i] == Contributions(addons, ctx)[..i];
      i := i + 1;
    }
    assert Contributions(addons, ctx)[..i] == Contributions(addons, ctx);
    if fragment == [] {
      entries := [];
    } else {
      entries := [MenuSeparator] + fragment;
    }
  }
}
