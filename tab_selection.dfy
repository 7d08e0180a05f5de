/**
 * Which tabs the close commands of the tab context menu remove:
 * "Close Tabs to the End", "Close Other Tabs" and "Close Tab" on a
 * multiselection. The window's tabs come in window order.
 */
module TabSelection {
  import opened Options
  import opened Sequences

  type TabId = int

  /** The two fields of a browser tab that the close commands read. */
  datatype Tab = Tab(id: TabId, pinned: bool)

  function Ids(tabs: seq<Tab>): (ids: seq<TabId>)
    ensures |ids| == |tabs|
    ensures forall i :: 0 <= i < |tabs| ==> ids[i] == tabs[i].id
    decreases |tabs|
  {
    if tabs == [] then [] else [tabs[0].id] + Ids(tabs[1..])
  }

  lemma IdsAppend(a: seq<Tab>, b: seq<Tab>)
    ensures Ids(a + b) == Ids(a) + Ids(b)
  {
    assert forall i :: 0 <= i < |a + b| ==> Ids(a + b)[i] == (Ids(a) + Ids(b))[i];
  }

  /**
   * The ids the close commands keep: those of the multiselected tabs when
   * the context tab belongs to a multiselection, else the context tab's own.
   */
  function KeptTabIds(contextTabId: TabId, multiselected: Option<seq<Tab>>): seq<TabId>
  {
    match multiselected
    case Some(tabs) => Ids(tabs)
    case None => [contextTabId]
  }

  /** A tab that "Close Other Tabs" removes: not pinned and not kept. */
  predicate Closable(kept: seq<TabId>, t: Tab)
  {
    !t.pinned && t.id !in kept
  }

  function ClosableTabs(tabs: seq<Tab>, kept: seq<TabId>): (r: seq<Tab>)
  {
    Filter(tabs, t => Closable(kept, t))
  }

  /** "Close Other Tabs": the ids of the unpinned, unkept tabs, in window order. */
  function CloseOtherTabs(tabs: seq<Tab>, kept: seq<TabId>): (ids: seq<TabId>)
    ensures |ids| <= |tabs|
    ensures forall i :: 0 <= i < |tabs| && Closable(kept, tabs[i]) ==> tabs[i].id in ids
    ensures forall id :: id in ids ==> id !in kept && exists i :: 0 <= i < |tabs| && tabs[i].id == id && !tabs[i].pinned
  {
    var r := ClosableTabs(tabs, kept);
    assert forall i :: 0 <= i < |tabs| && Closable(kept, tabs[i]) ==> tabs[i] in r;
    assert forall id :: id in Ids(r) ==> exists t :: t in r && t.id == id;
    Ids(r)
  }

  /** The position of the first kept tab in window order, if any. */
  function FirstKept(tabs: seq<Tab>, kept: seq<TabId>): (r: Option<nat>)
    ensures r.Some? ==> r.value < |tabs| && tabs[r.value].id in kept
    ensures r.Some? ==> forall i :: 0 <= i < r.value ==> tabs[i].id !in kept
    ensures r.None? ==> forall i :: 0 <= i < |tabs| ==> tabs[i].id !in kept
    decreases |tabs|
  {
    if tabs == [] then None
    else if tabs[0].id in kept then Some(0)
    else match FirstKept(tabs[1..], kept)
      case None => None
      case Some(k) => Some(k + 1)
  }

  /**
   * What "Close Tabs to the End" removes: the closable tabs strictly after
   * the first kept tab, in window order; nothing when no tab is kept.
   */
  function TabsToTheEnd(tabs: seq<Tab>, kept: seq<TabId>): (r: seq<Tab>)
  {
    match FirstKept(tabs, kept)
    case None => []
    case Some(k) => ClosableTabs(tabs[k + 1..], kept)
  }

  /**
   * The scan of "Close Tabs to the End": `after` turns on at the first kept
   * tab; from then on every tab that is neither kept nor pinned is collected.
   */
  method CloseTabsToTheEnd(tabs: seq<Tab>, kept: seq<TabId>) returns (closing: seq<Tab>)
    ensures closing == TabsToTheEnd(tabs, kept)
  {
    var after := false;
    closing := [];
    var i := 0;
    while i < |tabs|
      invariant 0 <= i <= |tabs|
      invariant !after ==> closing == [] && forall j :: 0 <= j < i ==> tabs[j].id !in kept
      invariant after ==> FirstKept(tabs, kept).Some? && FirstKept(tabs, kept).value < i
      invariant after ==> closing == ClosableTabs(tabs[FirstKept(tabs, kept).value + 1..i], kept)
    {
      var tab := tabs[i];
      if tab.id in kept {
        if after {
          ClosableStep(tabs, kept, FirstKept(tabs, kept).value + 1, i);
        }
        after := true;
        i := i + 1;
        continue;
      }
      if after {
        ClosableStep(tabs, kept, FirstKept(tabs, kept).value + 1, i);
        if !tab.pinned {
          closing := closing + [tab];
        }
      }
      i := i + 1;
    }
    if after {
      assert tabs[FirstKept(tabs, kept).value + 1..i] == tabs[FirstKept(tabs, kept).value + 1..];
    } else {
      assert FirstKept(tabs, kept).None?;
    }
  }

  /** Extending the scanned window by one tab adds that tab when it is closable. */
  lemma ClosableStep(tabs: seq<Tab>, kept: seq<TabId>, a: nat, i: nat)
    requires a <= i < |tabs|
    ensures ClosableTabs(tabs[a..i + 1], kept)
         == ClosableTabs(tabs[a..i], kept) + (if Closable(kept, tabs[i]) then [tabs[i]] else [])
  {
    assert tabs[a..i + 1] == tabs[a..i] + [tabs[i]];
    FilterAppend(tabs[a..i], [tabs[i]], t => Closable(kept, t));
  }

  /** A tab is closed by "Close Tabs to the End" iff it lies after the first kept tab and is closable. */
  lemma TabsToTheEndMembers(tabs: seq<Tab>, kept: seq<TabId>, t: Tab)
    ensures t in TabsToTheEnd(tabs, kept) <==>
      FirstKept(tabs, kept).Some? && Closable(kept, t) &&
      exists i :: FirstKept(tabs, kept).value < i < |tabs| && tabs[i] == t
  {
    match FirstKept(tabs, kept)
    case None =>
    case Some(k) =>
      if t in tabs[k + 1..] {
        var j :| 0 <= j < |tabs[k + 1..]| && tabs[k + 1..][j] == t;
        assert tabs[k + 1 + j] == t;
      }
      if exists i :: k < i < |tabs| && tabs[i] == t {
        var i :| k < i < |tabs| && tabs[i] == t;
        assert tabs[k + 1..][i - k - 1] == t;
      }
  }

  /** In a window whose tab ids are distinct, no tab up to the first kept one is closed. */
  lemma NothingBeforeFirstKeptCloses(tabs: seq<Tab>, kept: seq<TabId>)
    requires forall i, j :: 0 <= i < j < |tabs| ==> tabs[i].id != tabs[j].id
    requires FirstKept(tabs, kept).Some?
    ensures forall i :: 0 <= i <= FirstKept(tabs, kept).value ==> tabs[i].id !in Ids(TabsToTheEnd(tabs, kept))
  {
    var k := FirstKept(tabs, kept).value;
    var r := TabsToTheEnd(tabs, kept);
    forall i, m | 0 <= i <= k && 0 <= m < |r|
      ensures Ids(r)[m] != tabs[i].id
    {
      TabsToTheEndMembers(tabs, kept, r[m]);
    }
  }

  /**
   * "Close Tabs to the End" removes a suffix of what "Close Other Tabs"
   * removes, and so a subsequence of it.
   */
  lemma ToTheEndIsSuffixOfOthers(tabs: seq<Tab>, kept: seq<TabId>)
    ensures var others := CloseOtherTabs(tabs, kept);
            var toEnd := Ids(TabsToTheEnd(tabs, kept));
            |toEnd| <= |others| && toEnd == others[|others| - |toEnd|..]
    ensures IsSubsequence(Ids(TabsToTheEnd(tabs, kept)), CloseOtherTabs(tabs, kept))
  {
    var others := CloseOtherTabs(tabs, kept);
    var toEnd := Ids(TabsToTheEnd(tabs, kept));
    match FirstKept(tabs, kept) {
      case None =>
        assert toEnd == others[|others|..];
      case Some(k) =>
        var p := t => Closable(kept, t);
        assert tabs == tabs[..k + 1] + tabs[k + 1..];
        FilterAppend(tabs[..k + 1], tabs[k + 1..], p);
        IdsAppend(Filter(tabs[..k + 1], p), Filter(tabs[k + 1..], p));
        assert others == Ids(Filter(tabs[..k + 1], p)) + toEnd;
        assert toEnd == others[|others| - |toEnd|..];
    }
    SuffixIsSubsequence(others, |others| - |toEnd|);
  }

  /**
   * Neither the context tab nor, for a multiselection, any selected tab is
   * ever closed by "Close Other Tabs" or "Close Tabs to the End"; the
   * context tab alone is kept when there is no multiselection.
   */
  lemma KeptTabsNeverClosed(tabs: seq<Tab>, contextTabId: TabId, multiselected: Option<seq<Tab>>)
    ensures var kept := KeptTabIds(contextTabId, multiselected);
      (multiselected.None? ==> kept == [contextTabId]) &&
      (multiselected.Some? ==> forall t :: t in multiselected.value ==> t.id in kept) &&
      (forall id :: id in kept ==> id !in CloseOtherTabs(tabs, kept) && id !in Ids(TabsToTheEnd(tabs, kept)))
  {
    var kept := KeptTabIds(contextTabId, multiselected);
    if multiselected.Some? {
      var sel := multiselected.value;
      forall t | t in sel
        ensures t.id in kept
      {
        var k :| 0 <= k < |sel| && sel[k] == t;
        assert Ids(sel)[k] == t.id;
      }
    }
    var r := TabsToTheEnd(tabs, kept);
    forall id, m | id in kept && 0 <= m < |r|
      ensures Ids(r)[m] != id
    {
      TabsToTheEndMembers(tabs, kept, r[m]);
    }
  }

  /** Taking the ids keeps the subsequence relation. */
  lemma {:induction false} IdsSubsequence(a: seq<Tab>, b: seq<Tab>)
    requires IsSubsequence(a, b)
    ensures IsSubsequence(Ids(a), Ids(b))
    decreases |b|
  {
    if a == [] {
    } else if a[0] == b[0] && IsSubsequence(a[1..], b[1..]) {
      IdsSubsequence(a[1..], b[1..]);
      assert Ids(a)[1..] == Ids(a[1..]);
      assert Ids(b)[1..] == Ids(b[1..]);
    } else {
      IdsSubsequence(a, b[1..]);
      assert Ids(b)[1..] == Ids(b[1..]);
    }
  }

  /** "Close Other Tabs" keeps window order, on the tabs and on their ids. */
  lemma CloseOtherTabsInOrder(tabs: seq<Tab>, kept: seq<TabId>)
    ensures IsSubsequence(ClosableTabs(tabs, kept), tabs)
    ensures IsSubsequence(CloseOtherTabs(tabs, kept), Ids(tabs))
  {
    FilterIsSubsequence(tabs, t => Closable(kept, t));
    IdsSubsequence(ClosableTabs(tabs, kept), tabs);
  }

  /**
   * "Close Tab": the ids removed, in removal order. A multiselection is
   * reversed first and removed bottom to top, so that the tree structure
   * is kept; otherwise only the context tab is removed.
   */
  method CloseTabRemovals(contextTabId: TabId, multiselected: Option<seq<Tab>>) returns (removed: seq<TabId>)
    ensures multiselected.None? ==> removed == [contextTabId]
    ensures multiselected.Some? ==>
      var tabs := multiselected.value;
      |removed| == |tabs| &&
      (forall k :: 0 <= k < |tabs| ==> removed[k] == tabs[|tabs| - 1 - k].id) &&
      multiset(removed) == multiset(Ids(tabs))
  {
    match multiselected {
      case None =>
        removed := [contextTabId];
      case Some(tabs) =>
        removed := [];
        var i := |tabs|;
        while i > 0
          invariant 0 <= i <= |tabs|
          invariant |removed| == |tabs| - i
          invariant forall k :: 0 <= k < |removed| ==> removed[k] == tabs[|tabs| - 1 - k].id
          invariant multiset(removed) == multiset(Ids(tabs)[i..])
        {
          i := i - 1;
          assert Ids(tabs)[i..] == [Ids(tabs)[i]] + Ids(tabs)[i + 1..];
          removed := removed + [tabs[i].id];
        }
    }
  }
}
