/** The optional value used for JavaScript's `null`/`undefined` results. */
module Options {
  datatype Option<+T> = None | Some(value: T)
}

/**
 * Sequence helpers shared by the menu model: `Array.prototype.filter`,
 * "push the word when its flag holds", and the subsequence relation that
 * says an operation keeps the order of its input.
 */
module Sequences {

  /** `s.filter(p)`: the elements of `s` that satisfy `p`, in order. */
  function Filter<T(!new)>(s: seq<T>, p: T -> bool): (r: seq<T>)
    ensures |r| <= |s|
    ensures forall x :: x in r <==> x in s && p(x)
    ensures forall i :: 0 <= i < |r| ==> p(r[i])
  {
    if s == [] then []
    else (if p(s[0]) then [s[0]] else []) + Filter(s[1..], p)
  }

  lemma {:induction false} FilterAppend<T(!new)>(a: seq<T>, b: seq<T>, p: T -> bool)
    ensures Filter(a + b, p) == Filter(a, p) + Filter(b, p)
    decreases |a|
  {
    if a == [] {
      assert a + b == b;
    } else {
      assert (a + b)[0] == a[0];
      assert (a + b)[1..] == a[1..] + b;
      FilterAppend(a[1..], b, p);
    }
  }

  /** `a` can be obtained from `b` by deleting elements. */
  ghost predicate IsSubsequence<T>(a: seq<T>, b: seq<T>)
    decreases |b|
  {
    if a == [] then true
    else if b == [] then false
    else (a[0] == b[0] && IsSubsequence(a[1..], b[1..])) || IsSubsequence(a, b[1..])
  }

  lemma {:induction false} FilterIsSubsequence<T(!new)>(s: seq<T>, p: T -> bool)
    ensures IsSubsequence(Filter(s, p), s)
    decreases |s|
  {
    if s != [] {
      FilterIsSubsequence(s[1..], p);
      if p(s[0]) {
        assert Filter(s, p) == [s[0]] + Filter(s[1..], p);
        assert Filter(s, p)[1..] == Filter(s[1..], p);
      } else {
        assert Filter(s, p) == Filter(s[1..], p);
      }
    }
  }

  lemma {:induction false} SuffixIsSubsequence<T>(b: seq<T>, k: nat)
    requires k <= |b|
    ensures IsSubsequence(b[k..], b)
    decreases k
  {
    if k == 0 {
      SelfIsSubsequence(b);
    } else {
      SuffixIsSubsequence(b[1..], k - 1);
      assert b[1..][k - 1..] == b[k..];
      if b[k..] != [] {
        assert IsSubsequence(b[k..], b[1..]);
      }
    }
  }

  lemma {:induction false} SelfIsSubsequence<T>(b: seq<T>)
    ensures IsSubsequence(b, b)
    decreases |b|
  {
    if b != [] {
      SelfIsSubsequence(b[1..]);
    }
  }

  /**
   * The elements among the first `k` of `xs` whose flag is set, in the
   * order of `xs`: what the first `k` statements of a run of
   * `if (flag_i) list.push(xs[i])` leave in an empty list.
   */
  function SelectPrefix<T>(xs: seq<T>, flags: seq<bool>, k: nat): (r: seq<T>)
    requires |flags| == |xs| && k <= |xs|
    ensures |r| <= k
    decreases k
  {
    if k == 0 then [] else SelectPrefix(xs, flags, k - 1) + (if flags[k - 1] then [xs[k - 1]] else [])
  }

  /** The elements of `xs` whose flag is set, in the order of `xs`. */
  function Select<T>(xs: seq<T>, flags: seq<bool>): (r: seq<T>)
    requires |flags| == |xs|
    ensures |r| <= |xs|
  {
    SelectPrefix(xs, flags, |xs|)
  }

  lemma {:induction false} SelectPrefixMembers<T>(xs: seq<T>, flags: seq<bool>, k: nat)
    requires |flags| == |xs| && k <= |xs|
    ensures forall x :: x in SelectPrefix(xs, flags, k) <==> exists i :: 0 <= i < k && flags[i] && xs[i] == x
    decreases k
  {
    if k > 0 {
      SelectPrefixMembers(xs, flags, k - 1);
    }
  }

  /** An element is selected exactly when it sits at a position whose flag is set. */
  lemma SelectMembers<T>(xs: seq<T>, flags: seq<bool>)
    requires |flags| == |xs|
    ensures forall x :: x in Select(xs, flags) <==> exists k :: 0 <= k < |xs| && flags[k] && xs[k] == x
  {
    SelectPrefixMembers(xs, flags, |xs|);
  }

  /** With distinct elements, each one is selected iff its own flag is set. */
  lemma SelectDistinct<T>(xs: seq<T>, flags: seq<bool>)
    requires |flags| == |xs|
    requires forall i, j :: 0 <= i < j < |xs| ==> xs[i] != xs[j]
    ensures forall k :: 0 <= k < |xs| ==> (xs[k] in Select(xs, flags) <==> flags[k])
  {
    SelectMembers(xs, flags);
  }

  lemma {:induction false} SelectPrefixIsSubsequence<T>(xs: seq<T>, flags: seq<bool>, k: nat)
    requires |flags| == |xs| && k <= |xs|
    ensures IsSubsequence(SelectPrefix(xs, flags, k), xs[..k])
    decreases k
  {
    if k > 0 {
      SelectPrefixIsSubsequence(xs, flags, k - 1);
      SubsequenceExtend(SelectPrefix(xs, flags, k - 1), xs[..k - 1], xs[k - 1], flags[k - 1]);
      assert xs[..k - 1] + [xs[k - 1]] == xs[..k];
    }
  }

  /** The selected elements keep the order of `xs`. */
  lemma SelectIsSubsequence<T>(xs: seq<T>, flags: seq<bool>)
    requires |flags| == |xs|
    ensures IsSubsequence(Select(xs, flags), xs)
  {
    SelectPrefixIsSubsequence(xs, flags, |xs|);
    assert xs[..|xs|] == xs;
  }

  /** Appending an element to `b`, and optionally to `a`, keeps the relation. */
  lemma {:induction false} SubsequenceExtend<T>(a: seq<T>, b: seq<T>, x: T, keep: bool)
    requires IsSubsequence(a, b)
    ensures IsSubsequence(a + (if keep then [x] else []), b + [x])
    decreases |b|
  {
    if a == [] {
      if keep {
        SuffixIsSubsequence(b + [x], |b|);
        assert (b + [x])[|b|..] == [x];
        assert a + [x] == [x];
      }
    } else {
      assert b != [];
      assert (b + [x])[1..] == b[1..] + [x];
      assert (a + (if keep then [x] else []))[0] == a[0];
      if a[0] == b[0] && IsSubsequence(a[1..], b[1..]) {
        SubsequenceExtend(a[1..], b[1..], x, keep);
        assert (a + (if keep then [x] else []))[1..] == a[1..] + (if keep then [x] else []);
      } else {
        SubsequenceExtend(a, b[1..], x, keep);
      }
    }
  }

  /** The parts one after the other. */
  function Flatten<T>(parts: seq<seq<T>>): seq<T>
    decreases |parts|
  {
    if parts == [] then [] else Flatten(parts[..|parts| - 1]) + parts[|parts| - 1]
  }

  lemma {:induction false} FlattenMembers<T>(parts: seq<seq<T>>, x: T)
    ensures x in Flatten(parts) <==> exists i :: 0 <= i < |parts| && x in parts[i]
    decreases |parts|
  {
    if parts != [] {
      var n := |parts| - 1;
      FlattenMembers(parts[..n], x);
      assert forall i :: 0 <= i < n ==> parts[..n][i] == parts[i];
    }
  }

  lemma {:induction false} FlattenEmpty<T>(parts: seq<seq<T>>)
    ensures Flatten(parts) == [] <==> forall i :: 0 <= i < |parts| ==> parts[i] == []
    decreases |parts|
  {
    if parts != [] {
      var n := |parts| - 1;
      FlattenEmpty(parts[..n]);
      assert forall i :: 0 <= i < n ==> parts[..n][i] == parts[i];
    }
  }
}
