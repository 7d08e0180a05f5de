/**
 * How an add-on that contributes menu items is named and which of its icons
 * is shown: the display-name fallback and the icon-size choice.
 */
module AddonInfo {
  import opened Options
  import opened Sequences

  // ---------------------------------------------------------------------
  // Display name

  /** The characters JavaScript's `.` does not match. */
  predicate IsLineTerminator(c: char)
  {
    c == '\n' || c == '\r' || c == '\U{2028}' || c == '\U{2029}'
  }

  /** The pattern `/@.+$/` matches starting at position `i` of `id`. */
  predicate SuffixMatchesAt(id: string, i: nat)
  {
    i + 1 < |id| && id[i] == '@' && forall k :: i < k < |id| ==> !IsLineTerminator(id[k])
  }

  /** The leftmost position at or after `from` where `/@.+$/` matches. */
  function FirstSuffixMatch(id: string, from: nat): (r: Option<nat>)
    requires from <= |id|
    ensures r.Some? ==> from <= r.value < |id| && SuffixMatchesAt(id, r.value)
    ensures r.Some? ==> forall i :: from <= i < r.value ==> !SuffixMatchesAt(id, i)
    ensures r.None? ==> forall i :: from <= i < |id| ==> !SuffixMatchesAt(id, i)
    decreases |id| - from
  {
    if from == |id| then None
    else if SuffixMatchesAt(id, from) then Some(from)
    else FirstSuffixMatch(id, from + 1)
  }

  /**
   * `id.replace(/@.+$/, '')`: the id cut at its first '@' that is followed
   * by at least one character (and no line terminator) up to the end.
   */
  function StripAddonSuffix(id: string): (r: string)
    ensures |r| <= |id| && r == id[..|r|]
    ensures r == id <==> forall i :: 0 <= i < |id| ==> !SuffixMatchesAt(id, i)
    ensures r != id ==> SuffixMatchesAt(id, |r|) && forall i :: 0 <= i < |r| ==> !SuffixMatchesAt(id, i)
  {
    match FirstSuffixMatch(id, 0)
    case None => id
    case Some(i) => id[..i]
  }

  /** An id of the form `local@domain` is named by its local part. */
  lemma StripLocalAtDomain(local: string, domain: string)
    requires '@' !in local
    requires |domain| > 0
    requires forall k :: 0 <= k < |domain| ==> !IsLineTerminator(domain[k])
    ensures StripAddonSuffix(local + "@" + domain) == local
  {
    var id := local + "@" + domain;
    assert SuffixMatchesAt(id, |local|) by {
      forall k | |local| < k < |id|
        ensures !IsLineTerminator(id[k])
      {
        assert id[k] == domain[k - |local| - 1];
      }
    }
    var r := StripAddonSuffix(id);
    assert forall i :: 0 <= i < |local| ==> id[i] == local[i] && local[i] in local;
    assert |r| == |local|;
    assert id[..|local|] == local;
  }

  /** An id without any '@' is its own fallback name. */
  lemma StripWithoutAt(id: string)
    requires '@' !in id
    ensures StripAddonSuffix(id) == id
  {
    forall i | 0 <= i < |id|
      ensures !SuffixMatchesAt(id, i)
    {
      assert id[i] in id;
    }
  }

  /**
   * `getAddonName`: this extension's own entry shows its localized name;
   * another add-on shows the name it registered, or, when that is empty,
   * its id without the `@…` suffix.
   */
  function AddonName(id: string, selfId: string, extensionName: string, registeredName: string): (name: string)
    ensures id == selfId ==> name == extensionName
    ensures id != selfId ==> name == registeredName || (registeredName == "" && |name| <= |id| && name == id[..|name|])
    ensures id != selfId && registeredName != "" ==> name == registeredName
    ensures id != selfId && registeredName == "" ==> name == StripAddonSuffix(id)
  {
    if id == selfId then extensionName
    else if registeredName != "" then registeredName
    else StripAddonSuffix(id)
  }

  // ---------------------------------------------------------------------
  // Icon choice

  /** One entry of an `icons` object: a pixel size (its key) and a URL. */
  datatype IconEntry = IconEntry(size: nat, url: string)

  function Sizes(icons: seq<IconEntry>): (r: seq<nat>)
    ensures |r| == |icons|
    ensures forall i :: 0 <= i < |icons| ==> r[i] == icons[i].size
    decreases |icons|
  {
    if icons == [] then [] else [icons[0].size] + Sizes(icons[1..])
  }

  function DigitChar(d: nat): (c: char)
    requires d < 10
    ensures '0' <= c <= '9'
  {
    (48 + d) as char
  }

  /** `String(n)`: the decimal form that `Array.prototype.sort` compares. */
  function Decimal(n: nat): (s: string)
    ensures |s| >= 1
    ensures n > 0 ==> s[0] != '0'
    decreases n
  {
    if n < 10 then [DigitChar(n)] else Decimal(n / 10) + [DigitChar(n % 10)]
  }

  /** JavaScript's `<` on strings: code-unit order, a proper prefix first. */
  predicate LexLess(a: string, b: string)
    decreases |a|
  {
    if a == [] then b != []
    else if b == [] then false
    else if a[0] == b[0] then LexLess(a[1..], b[1..])
    else a[0] < b[0]
  }

  lemma {:induction false} LexIrreflexive(a: string)
    ensures !LexLess(a, a)
    decreases |a|
  {
    if a != [] {
      LexIrreflexive(a[1..]);
    }
  }

  lemma {:induction false} LexTransitive(a: string, b: string, c: string)
    requires LexLess(a, b) && LexLess(b, c)
    ensures LexLess(a, c)
    decreases |a|
  {
    if a != [] && b != [] && c != [] && a[0] == b[0] && b[0] == c[0] {
      LexTransitive(a[1..], b[1..], c[1..]);
    }
  }

  /** The first element of `sizes.sort()`: the least size in decimal-string order. */
  function FirstInSortOrder(sizes: seq<nat>): (r: nat)
    requires |sizes| > 0
    ensures r in sizes
    ensures forall s :: s in sizes ==> !LexLess(Decimal(s), Decimal(r))
    decreases |sizes|
  {
    if |sizes| == 1 then
      LexIrreflexive(Decimal(sizes[0]));
      sizes[0]
    else
      var m := FirstInSortOrder(sizes[1..]);
      if LexLess(Decimal(sizes[0]), Decimal(m)) then
        assert forall s :: s in sizes[1..] && LexLess(Decimal(s), Decimal(sizes[0])) ==> LexLess(Decimal(s), Decimal(m)) by {
          forall s | s in sizes[1..] && LexLess(Decimal(s), Decimal(sizes[0])) {
            LexTransitive(Decimal(s), Decimal(sizes[0]), Decimal(m));
          }
        }
        LexIrreflexive(Decimal(sizes[0]));
        sizes[0]
      else
        m
  }

  /**
   * The size `chooseIconForAddon` picks from the keys of an `icons` object:
   * the sizes below 16 when there are any, else all of them, ordered as
   * decimal strings; the first one, unless it is 0 (no icon).
   */
  function ChooseIconSize(sizes: seq<nat>): (r: Option<nat>)
    ensures r.Some? ==> r.value in sizes && r.value != 0
    ensures r.Some? && (exists s :: s in sizes && s < 16) ==> r.value < 16
    ensures r.Some? ==> forall s :: s in sizes && (s < 16 || forall t :: t in sizes ==> t >= 16) ==>
      !LexLess(Decimal(s), Decimal(r.value))
    ensures r.None? <==> sizes == [] || 0 in sizes
  {
    var reduced := Filter(sizes, s => s < 16);
    var candidates := if |reduced| > 0 then reduced else sizes;
    if candidates == [] then None
    else
      var s := FirstInSortOrder(candidates);
      assert 0 in sizes ==> s == 0 by {
        if 0 in sizes && s != 0 {
          assert 0 in reduced;
          assert LexLess(Decimal(0), Decimal(s));
        }
      }
      if s == 0 then None else Some(s)
  }

  /** The decimal-string order is not the numeric one: of 32 and 128, 128 is picked. */
  lemma ChooseIconSizeStringOrder()
    ensures ChooseIconSize([32, 128]) == Some(128)
    ensures ChooseIconSize([8, 10]) == Some(10)
  {
    assert Decimal(32) == "32" by { assert Decimal(3) == "3"; }
    assert Decimal(128) == "128" by { assert Decimal(12) == "12" by { assert Decimal(1) == "1"; } }
    assert LexLess("128", "32");
    assert Decimal(8) == "8";
    assert Decimal(10) == "10" by { assert Decimal(1) == "1"; }
    assert LexLess("10", "8");
  }

  predicate IsWordChar(c: char)
  {
    'a' <= c <= 'z' || 'A' <= c <= 'Z' || '0' <= c <= '9' || c == '_'
  }

  /** The length of the run of `\w` characters that starts `s`. */
  function WordPrefixLength(s: string): (k: nat)
    ensures k <= |s|
    ensures forall i :: 0 <= i < k ==> IsWordChar(s[i])
    ensures k == |s| || !IsWordChar(s[k])
    decreases |s|
  {
    if s == [] || !IsWordChar(s[0]) then 0 else 1 + WordPrefixLength(s[1..])
  }

  /** `/^\w+:\/\//.test(url)`. */
  predicate HasScheme(url: string)
  {
    var k := WordPrefixLength(url);
    k >= 1 && k + 3 <= |url| && url[k..k + 3] == "://"
  }

  /**
   * A URL that starts with word characters (`[A-Za-z0-9_]`) followed by
   * `://` is used as it is; any other, including one whose scheme holds a
   * `-`, `+` or `.` such as `moz-extension://...`, is taken relative to the
   * add-on's own `moz-extension://<internal id>/` origin, with one leading
   * '/' removed.
   */
  function IconUrl(url: string, internalId: string): (r: string)
    ensures HasScheme(url) ==> r == url
    ensures !HasScheme(url) ==>
      var prefix := "moz-extension://" + internalId + "/";
      |r| >= |prefix| && r[..|prefix|] == prefix &&
      r[|prefix|..] == (if |url| > 0 && url[0] == '/' then url[1..] else url)
  {
    if HasScheme(url) then url
    else "moz-extension://" + internalId + "/" + (if |url| > 0 && url[0] == '/' then url[1..] else url)
  }

  /**
   * The scheme test does not accept `moz-extension://...`, whose `-` is not
   * a word character, so an absolute extension URL is prefixed with the
   * add-on's origin once more.
   */
  lemma ExtensionUrlIsPrefixed()
    ensures !HasScheme("moz-extension://a/i.png")
    ensures IconUrl("moz-extension://a/i.png", "X") == "moz-extension://" + "X" + "/" + "moz-extension://a/i.png"
  {
    var url := "moz-extension://a/i.png";
    WordPrefixStops(url, 3);
    assert url[3] == '-';
  }

  /** A run of `k` word characters followed by a non-word one has length `k`. */
  lemma WordPrefixStops(s: string, k: nat)
    requires k < |s| && !IsWordChar(s[k])
    requires forall i :: 0 <= i < k ==> IsWordChar(s[i])
    ensures WordPrefixLength(s) == k
  {
  }

  /** A URL with an `http`-style scheme is kept as it is. */
  lemma HttpsUrlIsKept()
    ensures HasScheme("https://a/i.png")
    ensures IconUrl("https://a/i.png", "X") == "https://a/i.png"
  {
    var url := "https://a/i.png";
    assert !IsWordChar(url[5]);
    assert WordPrefixLength(url[5..]) == 0;
    assert WordPrefixLength(url) == 5;
    assert url[5..8] == "://";
  }

  /** `icons[size]`: the URL of the first entry with that size. */
  function IconFor(icons: seq<IconEntry>, size: nat): (url: string)
    requires size in Sizes(icons)
    ensures exists i :: 0 <= i < |icons| && icons[i].size == size && icons[i].url == url
    decreases |icons|
  {
    if icons[0].size == size then icons[0].url else IconFor(icons[1..], size)
  }

  /**
   * `chooseIconForAddon`: the URL of the chosen size's icon, made absolute,
   * or nothing when no size is chosen.
   */
  function ChooseIcon(icons: seq<IconEntry>, internalId: string): (r: Option<string>)
    ensures r.None? <==> icons == [] || 0 in Sizes(icons)
    ensures r.Some? ==> exists i :: 0 <= i < |icons| && icons[i].size != 0 && r.value == IconUrl(icons[i].url, internalId)
    ensures r.Some? ==> ChooseIconSize(Sizes(icons)).Some?
    ensures r.Some? ==> exists i ::
      0 <= i < |icons| && icons[i].size == ChooseIconSize(Sizes(icons)).value && r.value == IconUrl(icons[i].url, internalId)
  {
    match ChooseIconSize(Sizes(icons))
    case None => None
    case Some(size) => Some(IconUrl(IconFor(icons, size), internalId))
  }
}
