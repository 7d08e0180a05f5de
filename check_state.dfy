/**
 * What a click on a contributed checkbox or radio item does to the owner's
 * item list: the stored `checked` flags are rewritten in place so that the
 * next rebuild of the menu shows the new state.
 */
module CheckState {
  import opened Options
  import opened ExtraItems

  // ---------------------------------------------------------------------
  // Checkbox

  /** The owner's list after a checkbox click that leaves the node's class `checked`. */
  function CheckboxUpdate(items: seq<ExtraItem>, id: string, checked: bool): seq<ExtraItem>
  {
    match FirstIndexOf(items, id)
    case None => items
    case Some(j) => items[j := items[j].(checked := checked)]
  }

  /**
   * A checkbox click stores the new state in the first entry with the
   * clicked id and in no other; the list keeps its length, and every entry
   * keeps all its other fields.
   */
  lemma CheckboxUpdateEffect(items: seq<ExtraItem>, id: string, checked: bool)
    ensures var r := CheckboxUpdate(items, id, checked);
      |r| == |items| &&
      (forall k :: 0 <= k < |items| ==> r[k] == items[k].(checked := r[k].checked)) &&
      (forall k :: 0 <= k < |items| && r[k] != items[k] ==>
         items[k].id == id && forall m :: 0 <= m < k ==> items[m].id != id) &&
      (forall k :: 0 <= k < |items| && items[k].id == id && (forall m :: 0 <= m < k ==> items[m].id != id) ==>
         r[k].checked == checked)
  {
  }

  /** Two entries lists that agree on every id find the same first entry. */
  lemma {:induction false} FirstIndexOfSameIds(a: seq<ExtraItem>, b: seq<ExtraItem>, id: string)
    requires |a| == |b|
    requires forall k :: 0 <= k < |a| ==> a[k].id == b[k].id
    ensures FirstIndexOf(a, id) == FirstIndexOf(b, id)
    decreases |a|
  {
    if a != [] && a[0].id != id {
      FirstIndexOfSameIds(a[1..], b[1..], id);
    }
  }

  /**
   * Clicking a checkbox twice, with the data in step with the node's class,
   * leaves the list as it was.
   */
  lemma CheckboxClickTwice(items: seq<ExtraItem>, id: string, j: nat)
    requires FirstIndexOf(items, id) == Some(j)
    ensures CheckboxUpdate(CheckboxUpdate(items, id, !items[j].checked), id, items[j].checked) == items
  {
    var once := CheckboxUpdate(items, id, !items[j].checked);
    FirstIndexOfSameIds(once, items, id);
  }

  /**
   * The checkbox branch of the click handler: the node's `checked` class is
   * toggled, and the first entry of the owner's list with the clicked id is
   * given the new state; the loop stops there.
   */
  method ToggleCheckbox(items: array<ExtraItem>, id: string, classChecked: bool) returns (checked: bool)
    modifies items
    ensures checked == !classChecked
    ensures items[..] == CheckboxUpdate(old(items[..]), id, checked)
  {
    checked := !classChecked;
    var i := 0;
    while i < items.Length
      invariant 0 <= i <= items.Length
      invariant forall k :: 0 <= k < i ==> items[k].id != id
      invariant items[..] == old(items[..])
    {
      if items[i].id == id {
        items[i] := items[i].(checked := checked);
        return;
      }
      i := i + 1;
    }
  }

  // ---------------------------------------------------------------------
  // Radio

  /** Where the run of radio entries that ends just before position `k` starts. */
  function RunStart(items: seq<ExtraItem>, k: nat): (r: nat)
    requires k <= |items|
    ensures r <= k
    ensures forall m :: r <= m < k ==> IsRadio(items[m])
    ensures r == 0 || !IsRadio(items[r - 1])
    decreases k
  {
    if k == 0 then 0
    else if IsRadio(items[k - 1]) then RunStart(items, k - 1)
    else k
  }

  /** Where the run of radio entries that starts at position `k` ends. */
  function RunEnd(items: seq<ExtraItem>, k: nat): (r: nat)
    requires k <= |items|
    ensures k <= r <= |items|
    ensures forall m :: k <= m < r ==> IsRadio(items[m])
    ensures r == |items| || !IsRadio(items[r])
    decreases |items| - k
  {
    if k == |items| then k
    else if IsRadio(items[k]) then RunEnd(items, k + 1)
    else k
  }

  /**
   * The positions `[start, end)` that a radio click on `id` rewrites:
   * the radio run through the first entry with that id, or, when that entry
   * is not a radio, the radio run right after it. `None` when no entry has
   * the id.
   */
  function RadioGroup(items: seq<ExtraItem>, id: string): (r: Option<(nat, nat)>)
    ensures r.Some? ==> r.value.0 <= r.value.1 <= |items|
  {
    match FirstIndexOf(items, id)
    case None => None
    case Some(j) => Some((RunStart(items, j + 1), RunEnd(items, j + 1)))
  }

  /** The owner's list after a radio click on `id`. */
  function RadioUpdate(items: seq<ExtraItem>, id: string): (r: seq<ExtraItem>)
    ensures |r| == |items|
  {
    match RadioGroup(items, id)
    case None => items
    case Some((a, b)) =>
      seq(|items|, k requires 0 <= k < |items| =>
        if a <= k < b then items[k].(checked := items[k].id == id) else items[k])
  }

  /**
   * When the clicked id first occurs on a radio entry, the group is the
   * maximal contiguous run of radio entries around it.
   */
  lemma RadioGroupIsMaximalRun(items: seq<ExtraItem>, id: string, j: nat)
    requires FirstIndexOf(items, id) == Some(j)
    requires IsRadio(items[j])
    ensures RadioGroup(items, id).Some?
    ensures var (a, b) := RadioGroup(items, id).value;
      a <= j < b &&
      (forall m :: a <= m < b ==> IsRadio(items[m])) &&
      (a == 0 || !IsRadio(items[a - 1])) &&
      (b == |items| || !IsRadio(items[b]))
  {
  }

  /**
   * A radio click: inside the group the entries with the clicked id become
   * checked and all others unchecked; the entry first bearing the id is
   * checked when it is a radio, and left as it was when it is not (the
   * group then starts after it); outside the group nothing changes, and
   * nothing changes at all when no entry has the id. Only `checked` is
   * ever rewritten.
   */
  lemma RadioUpdateEffect(items: seq<ExtraItem>, id: string)
    ensures var r := RadioUpdate(items, id);
      (forall k :: 0 <= k < |items| ==> r[k] == items[k].(checked := r[k].checked)) &&
      (RadioGroup(items, id).None? ==> r == items) &&
      (RadioGroup(items, id).Some? ==>
        var (a, b) := RadioGroup(items, id).value;
        (forall k :: a <= k < b ==> r[k].checked == (items[k].id == id)) &&
        (forall k :: 0 <= k < |items| && !(a <= k < b) ==> r[k] == items[k]))
    ensures FirstIndexOf(items, id).Some? && IsRadio(items[FirstIndexOf(items, id).value]) ==>
      RadioUpdate(items, id)[FirstIndexOf(items, id).value].checked
    ensures FirstIndexOf(items, id).Some? && !IsRadio(items[FirstIndexOf(items, id).value]) ==>
      RadioUpdate(items, id)[FirstIndexOf(items, id).value] == items[FirstIndexOf(items, id).value]
  {
  }

  /**
   * When no other entry of the group bears the clicked id (as with distinct
   * ids), a radio click leaves exactly one entry of the group checked: the
   * clicked one.
   */
  lemma RadioLeavesOneChecked(items: seq<ExtraItem>, id: string, j: nat)
    requires FirstIndexOf(items, id) == Some(j)
    requires IsRadio(items[j])
    requires forall m :: RunStart(items, j + 1) <= m < RunEnd(items, j + 1) && m != j ==> items[m].id != id
    ensures var (a, b) := RadioGroup(items, id).value;
      forall k :: a <= k < b ==> (RadioUpdate(items, id)[k].checked <==> k == j)
  {
    RadioGroupIsMaximalRun(items, id, j);
  }

  /** The run boundaries depend on the entries' types only. */
  lemma {:induction false} RunsIgnoreChecked(a: seq<ExtraItem>, b: seq<ExtraItem>, k: nat)
    requires |a| == |b| && k <= |a|
    requires forall m :: 0 <= m < |a| ==> a[m].itemType == b[m].itemType
    ensures RunStart(a, k) == RunStart(b, k)
    ensures RunEnd(a, k) == RunEnd(b, k)
  {
    RunStartIgnoresChecked(a, b, k);
    RunEndIgnoresChecked(a, b, k);
  }

  lemma {:induction false} RunStartIgnoresChecked(a: seq<ExtraItem>, b: seq<ExtraItem>, k: nat)
    requires |a| == |b| && k <= |a|
    requires forall m :: 0 <= m < |a| ==> a[m].itemType == b[m].itemType
    ensures RunStart(a, k) == RunStart(b, k)
    decreases k
  {
    if k > 0 && IsRadio(a[k - 1]) {
      RunStartIgnoresChecked(a, b, k - 1);
    }
  }

  lemma {:induction false} RunEndIgnoresChecked(a: seq<ExtraItem>, b: seq<ExtraItem>, k: nat)
    requires |a| == |b| && k <= |a|
    requires forall m :: 0 <= m < |a| ==> a[m].itemType == b[m].itemType
    ensures RunEnd(a, k) == RunEnd(b, k)
    decreases |a| - k
  {
    if k < |a| && IsRadio(a[k]) {
      RunEndIgnoresChecked(a, b, k + 1);
    }
  }

  /** Clicking the same radio item again changes nothing more. */
  lemma RadioUpdateIdempotent(items: seq<ExtraItem>, id: string)
    ensures RadioUpdate(RadioUpdate(items, id), id) == RadioUpdate(items, id)
  {
    var once := RadioUpdate(items, id);
    RadioUpdateEffect(items, id);
    FirstIndexOfSameIds(once, items, id);
    match FirstIndexOf(items, id) {
      case None =>
      case Some(j) =>
        RunsIgnoreChecked(once, items, j + 1);
        RadioUpdateEffect(once, id);
    }
  }

  /** `k` lies in the half-open range `[a, b)` of a radio group. */
  predicate InGroup(group: (nat, nat), k: int)
  {
    group.0 <= k < group.1
  }

  /**
   * The scan of the radio branch of the click handler. One set is reused:
   * each radio entry is added to it and a non-radio entry clears it; once
   * the clicked id has been seen, `radioItems` is that same set and the
   * first non-radio entry ends the scan. The result is `radioItems`: `None`
   * for `null`, else the positions in the set.
   */
  method CollectRadioGroup(items: array<ExtraItem>, id: string) returns (radioItems: Option<set<nat>>)
    ensures radioItems.None? <==> RadioGroup(items[..], id).None?
    ensures radioItems.Some? ==>
      forall k :: k in radioItems.value <==> InGroup(RadioGroup(items[..], id).value, k)
  {
    ghost var s := items[..];
    ghost var first := FirstIndexOf(s, id);
    ghost var start := 0;
    var current: set<nat> := {};
    var matched := false;
    var i := 0;
    while i < items.Length
      invariant 0 <= i <= items.Length
      invariant start == RunStart(s, i)
      invariant forall k :: k in current <==> start <= k < i
      invariant !matched ==> forall k :: 0 <= k < i ==> s[k].id != id
      invariant matched ==> first.Some? && first.value < i
      invariant matched ==> i <= RunEnd(s, first.value + 1) && start == RunStart(s, first.value + 1)
    {
      var entry := items[i];
      if entry.itemType == Radio {
        current := current + {i};
      } else if matched {
        break;
      } else {
        current := {};
        start := i + 1;
      }
      if entry.id == id {
        matched := true;
      }
      i := i + 1;
    }
    if matched {
      assert i == RunEnd(s, first.value + 1);
      radioItems := Some(current);
    } else {
      radioItems := None;
    }
  }

  /**
   * The radio branch of the click handler: the entries of the collected
   * group get `checked` exactly when their id is the clicked one. `found`
   * says whether a group was collected.
   */
  method SelectRadio(items: array<ExtraItem>, id: string) returns (found: bool)
    modifies items
    ensures found == RadioGroup(old(items[..]), id).Some?
    ensures items[..] == RadioUpdate(old(items[..]), id)
  {
    var radioItems := CollectRadioGroup(items, id);
    found := radioItems.Some?;
    if radioItems.Some? {
      ghost var s := items[..];
      ghost var group := RadioGroup(s, id).value;
      var rest := radioItems.value;
      while rest != {}
        invariant forall k :: k in rest ==> InGroup(group, k)
        invariant forall k :: 0 <= k < items.Length ==>
          items[k] == (if InGroup(group, k) && k !in rest then s[k].(checked := s[k].id == id) else s[k])
        decreases rest
      {
        var k :| k in rest;
        items[k] := items[k].(checked := items[k].id == id);
        rest := rest - {k};
      }
      assert forall k :: 0 <= k < items.Length ==> items[..][k] == RadioUpdate(s, id)[k];
    }
  }
}
