/**
 * The discovery widget's memory of the user's choices: the recently-used IdP
 * list kept in the `_saml_idp` cookie, the move-to-front update made when an
 * IdP is selected, the list of preferred IdPs shown as buttons (configured
 * pins followed by recent choices), and the codec of the cookie value (each
 * entityID in the widget's own Base64, then `encodeURIComponent`, joined with
 * '+').
 */
module Preferences {
  import opened Wrappers
  import Text
  import Base64Js
  import UriComponent
  import Catalog

  /** `xs` with every occurrence of `x` removed, order kept. */
  function Without(xs: seq<string>, x: string): (r: seq<string>)
    ensures |r| <= |xs|
    ensures forall k :: 0 <= k < |r| ==> r[k] != x && r[k] in xs
    ensures forall y :: y in xs && y != x ==> y in r
  {
    if |xs| == 0 then [] else (if xs[0] == x then [] else [xs[0]]) + Without(xs[1..], x)
  }

  lemma WithoutCons(y: string, b: seq<string>, x: string)
    ensures Without([y] + b, x) == (if y == x then [] else [y]) + Without(b, x)
  {
    assert ([y] + b)[0] == y && ([y] + b)[1..] == b;
  }

  lemma {:induction false} WithoutAppend(a: seq<string>, b: seq<string>, x: string)
    ensures Without(a + b, x) == Without(a, x) + Without(b, x)
  {
    if |a| > 0 {
      var h := if a[0] == x then [] else [a[0]];
      assert a + b == [a[0]] + (a[1..] + b);
      WithoutCons(a[0], a[1..] + b, x);
      WithoutAppend(a[1..], b, x);
      assert Without(a, x) == h + Without(a[1..], x);
    } else {
      assert a + b == b;
    }
  }

  /** The recently-used list after `x` is selected: `x` first, then the old list without `x`. */
  function Updated(selected: seq<string>, x: string): (r: seq<string>)
    ensures |r| >= 1 && r[0] == x
  {
    [x] + Without(selected, x)
  }

  /**
   * `updateSelectedIdPs`: pops the old list from its end, putting back at the
   * front of a new list every entry other than `x`, then puts `x` in front.
   */
  method UpdateSelectedIdPs(selected: seq<string>, x: string) returns (r: seq<string>)
    ensures r == Updated(selected, x)
  {
    // `n` is the length of the list still to be popped, `selected[..n]`.
    var n := |selected|;
    var newList: seq<string> := [];
    while n != 0
      invariant 0 <= n <= |selected|
      invariant newList == Without(selected[n..], x)
    {
      var what := selected[n - 1];
      n := n - 1;
      Popped(selected, n, x);
      if what != x {
        newList := [what] + newList;
      }
    }
    assert selected[0..] == selected;
    r := [x] + newList;
  }

  lemma Popped(selected: seq<string>, n: nat, x: string)
    requires n < |selected|
    ensures Without(selected[n..], x) == (if selected[n] == x then [] else [selected[n]]) + Without(selected[n + 1..], x)
  {
    assert selected[n..] == [selected[n]] + selected[n + 1..];
    WithoutCons(selected[n], selected[n + 1..], x);
  }

  /** Number of occurrences of `x` in `xs`. */
  function Count(xs: seq<string>, x: string): nat {
    if |xs| == 0 then 0 else (if xs[0] == x then 1 else 0) + Count(xs[1..], x)
  }

  lemma {:induction false} CountWithout(xs: seq<string>, x: string)
    ensures Count(Without(xs, x), x) == 0
  {
    if |xs| > 0 {
      CountWithout(xs[1..], x);
      var h := if xs[0] == x then [] else [xs[0]];
      assert Without(xs, x) == h + Without(xs[1..], x);
      CountAppend(h, Without(xs[1..], x), x);
    }
  }

  lemma {:induction false} CountAppend(a: seq<string>, b: seq<string>, x: string)
    ensures Count(a + b, x) == Count(a, x) + Count(b, x)
  {
    if |a| > 0 {
      assert (a + b)[1..] == a[1..] + b;
      CountAppend(a[1..], b, x);
    } else {
      assert a + b == b;
    }
  }

  /** After an update the selected IdP is listed exactly once, first. */
  lemma UpdatedOnce(selected: seq<string>, x: string)
    ensures Count(Updated(selected, x), x) == 1
    ensures forall k :: 1 <= k < |Updated(selected, x)| ==> Updated(selected, x)[k] != x
  {
    CountWithout(selected, x);
    CountAppend([x], Without(selected, x), x);
  }

  lemma {:induction false} WithoutTwice(xs: seq<string>, x: string)
    ensures Without(Without(xs, x), x) == Without(xs, x)
  {
    if |xs| > 0 {
      WithoutTwice(xs[1..], x);
      var h := if xs[0] == x then [] else [xs[0]];
      WithoutAppend(h, Without(xs[1..], x), x);
    }
  }

  /** Selecting the same IdP twice leaves the list as selecting it once did. */
  lemma UpdatedIdempotent(selected: seq<string>, x: string)
    ensures Updated(Updated(selected, x), x) == Updated(selected, x)
  {
    var u := Updated(selected, x);
    assert u[1..] == Without(selected, x);
    assert Without(u, x) == Without(u[1..], x);
    WithoutTwice(selected, x);
  }

  /** An update neither loses nor invents IdPs: the new list holds `x` and the old entries. */
  lemma UpdatedMembers(selected: seq<string>, x: string)
    ensures forall y :: y in Updated(selected, x) <==> y == x || y in selected
  {
  }

  function Min(a: int, b: int): int { if a <= b then a else b }
  function Max(a: int, b: int): int { if a <= b then b else a }

  /** How many configured pins `getPreferredIdPs` uses: at most one fewer than the maximum. */
  function PinnedCount(pinned: seq<string>, maxPreferred: int): (r: nat)
    ensures r <= |pinned| && r < Max(maxPreferred, 1)
  {
    Max(Min(|pinned|, maxPreferred - 1), 0)
  }

  /**
   * `getPreferredIdPs` as written: the recency loop runs its output index `i`
   * from the pin count and stops once `i` reaches the length of the recency
   * list, so a recency list no longer than the pins shows nothing.
   */
  function PreferredIdPsAsWritten(catalog: seq<Catalog.Provider>, pinned: seq<string>,
                                  maxPreferred: int, recency: seq<string>): (r: seq<Option<Catalog.Provider>>)
    ensures var offset := PinnedCount(pinned, maxPreferred);
            offset <= |r| <= Max(maxPreferred, 0)
            && (forall i :: 0 <= i < offset ==> r[i] == Catalog.GetIdPFor(catalog, pinned[i]))
            && |r| - offset == Max(Min(|recency|, maxPreferred) - offset, 0)
            && (forall j :: 0 <= j < |r| - offset ==> r[offset + j] == Catalog.GetIdPFor(catalog, recency[j]))
  {
    var offset := PinnedCount(pinned, maxPreferred);
    var n := Max(Min(|recency|, maxPreferred) - offset, 0);
    seq(offset, i requires 0 <= i < offset => Catalog.GetIdPFor(catalog, pinned[i]))
    + seq(n, j requires 0 <= j < n => Catalog.GetIdPFor(catalog, recency[j]))
  }

  /** The documented behaviour: pins first, then recent choices until the maximum is reached. */
  function PreferredIdPs(catalog: seq<Catalog.Provider>, pinned: seq<string>,
                         maxPreferred: int, recency: seq<string>): (r: seq<Option<Catalog.Provider>>)
    ensures var offset := PinnedCount(pinned, maxPreferred);
            offset <= |r| <= Max(maxPreferred, 0)
            && (forall i :: 0 <= i < offset ==> r[i] == Catalog.GetIdPFor(catalog, pinned[i]))
            && |r| == Max(Min(offset + |recency|, maxPreferred), offset)
            && (forall j :: 0 <= j < |r| - offset ==> r[offset + j] == Catalog.GetIdPFor(catalog, recency[j]))
  {
    var offset := PinnedCount(pinned, maxPreferred);
    var n := Max(Min(|recency|, maxPreferred - offset), 0);
    seq(offset, i requires 0 <= i < offset => Catalog.GetIdPFor(catalog, pinned[i]))
    + seq(n, j requires 0 <= j < n => Catalog.GetIdPFor(catalog, recency[j]))
  }

  /** As written, no recent choice is shown when there are at least as many pins as recent choices. */
  lemma AsWrittenHidesShortRecency(catalog: seq<Catalog.Provider>, pinned: seq<string>,
                                   maxPreferred: int, recency: seq<string>)
    requires PinnedCount(pinned, maxPreferred) >= |recency|
    ensures |PreferredIdPsAsWritten(catalog, pinned, maxPreferred, recency)| == PinnedCount(pinned, maxPreferred)
  {
  }

  /** Two pins, a maximum of three and one recent choice: the choice is dropped, though there is room for it. */
  lemma AsWrittenDropsRecentChoice()
    ensures |PreferredIdPsAsWritten([], ["a", "b"], 3, ["c"])| == 2
    ensures |PreferredIdPs([], ["a", "b"], 3, ["c"])| == 3
  {
  }

  /** With room to spare, the corrected list shows every recent choice after the pins. */
  lemma PreferredShowsAllRecency(catalog: seq<Catalog.Provider>, pinned: seq<string>,
                                 maxPreferred: int, recency: seq<string>)
    requires PinnedCount(pinned, maxPreferred) + |recency| <= maxPreferred
    ensures |PreferredIdPs(catalog, pinned, maxPreferred, recency)| == PinnedCount(pinned, maxPreferred) + |recency|
  {
  }

  /**
   * The preferred-IdP tile: of the first `maxPreferred` preferred entries,
   * those found in the catalog, in order. An entityID the catalog does not
   * know gives no button.
   */
  function Tile(prefs: seq<Option<Catalog.Provider>>, maxPreferred: int): (r: seq<Catalog.Provider>)
    ensures |r| <= |prefs|
    ensures forall p :: p in r ==> Some(p) in prefs
    ensures forall k :: 0 <= k < |prefs| && k < maxPreferred && prefs[k].Some? ==> prefs[k].value in r
    ensures forall p :: p in r ==> exists k :: 0 <= k < |prefs| && k < maxPreferred && prefs[k] == Some(p)
    decreases |prefs|
  {
    if |prefs| == 0 || maxPreferred <= 0 then []
    else
      var rest := Tile(prefs[1..], maxPreferred - 1);
      assert forall k :: 1 <= k < |prefs| ==> prefs[k] == prefs[1..][k - 1];
      assert forall p :: p in rest ==> exists k :: 1 <= k < |prefs| && k < maxPreferred && prefs[k] == Some(p);
      (if prefs[0].Some? then [prefs[0].value] else []) + rest
  }

  /**
   * The tile keeps the order of the preferred list: one more entry adds its
   * button at the end, when it is within the first `maxPreferred` and found.
   */
  lemma {:induction false} TileSnoc(prefs: seq<Option<Catalog.Provider>>, x: Option<Catalog.Provider>,
                                    maxPreferred: int)
    ensures Tile(prefs + [x], maxPreferred)
         == Tile(prefs, maxPreferred) + (if |prefs| < maxPreferred && x.Some? then [x.value] else [])
    decreases |prefs|
  {
    if |prefs| > 0 && maxPreferred > 0 {
      assert (prefs + [x])[1..] == prefs[1..] + [x];
      TileSnoc(prefs[1..], x, maxPreferred - 1);
    }
  }

  /** Every button of the tile is a catalog IdP whose entityID was pinned or recently chosen. */
  lemma TileFromCatalog(catalog: seq<Catalog.Provider>, pinned: seq<string>,
                        maxPreferred: int, recency: seq<string>)
    ensures forall p :: p in Tile(PreferredIdPs(catalog, pinned, maxPreferred, recency), maxPreferred) ==>
      p in catalog && (p.entityId in pinned || p.entityId in recency)
  {
    var prefs := PreferredIdPs(catalog, pinned, maxPreferred, recency);
    forall p | p in Tile(prefs, maxPreferred)
      ensures p in catalog && (p.entityId in pinned || p.entityId in recency)
    {
      var k :| 0 <= k < |prefs| && prefs[k] == Some(p);
      PreferredEntry(catalog, pinned, maxPreferred, recency, k);
    }
  }

  lemma PreferredEntry(catalog: seq<Catalog.Provider>, pinned: seq<string>,
                       maxPreferred: int, recency: seq<string>, k: nat)
    requires k < |PreferredIdPs(catalog, pinned, maxPreferred, recency)|
    requires PreferredIdPs(catalog, pinned, maxPreferred, recency)[k].Some?
    ensures var p := PreferredIdPs(catalog, pinned, maxPreferred, recency)[k].value;
      p in catalog && (p.entityId in pinned || p.entityId in recency)
  {
    var offset := PinnedCount(pinned, maxPreferred);
    if k < offset {
      assert PreferredIdPs(catalog, pinned, maxPreferred, recency)[k] == Catalog.GetIdPFor(catalog, pinned[k]);
    } else {
      assert PreferredIdPs(catalog, pinned, maxPreferred, recency)[offset + (k - offset)]
          == Catalog.GetIdPFor(catalog, recency[k - offset]);
    }
  }

  // ----- the cookie value -----

  /** One stored entityID: the widget's Base64 of it, then `encodeURIComponent`. */
  function EncodeEntry(id: string): string {
    UriComponent.Encode(Base64Js.Encode(id))
  }

  /** The entries `saveUserSelectedIdPs` stores: the non-empty ones among the first five. */
  function Kept(idps: seq<string>): (r: seq<string>)
    ensures |r| <= 5
    ensures forall k :: 0 <= k < |r| ==> r[k] != "" && r[k] in idps
    ensures forall k :: 0 <= k < Min(|idps|, 5) && idps[k] != "" ==> idps[k] in r
  {
    var head := idps[..Min(|idps|, 5)];
    assert forall k :: 0 <= k < |head| ==> head[k] == idps[k];
    NonEmpty(head)
  }

  function NonEmpty(xs: seq<string>): (r: seq<string>)
    ensures |r| <= |xs|
    ensures forall k :: 0 <= k < |r| ==> r[k] != "" && r[k] in xs
    ensures forall k :: 0 <= k < |xs| && xs[k] != "" ==> xs[k] in r
  {
    if |xs| == 0 then []
    else
      assert forall k :: 1 <= k < |xs| ==> xs[k] == xs[1..][k - 1];
      (if xs[0] == "" then [] else [xs[0]]) + NonEmpty(xs[1..])
  }

  /** `NonEmpty` keeps the order of its input: one more entry lands at the end, unless empty. */
  lemma {:induction false} NonEmptySnoc(xs: seq<string>, x: string)
    ensures NonEmpty(xs + [x]) == NonEmpty(xs) + (if x == "" then [] else [x])
    decreases |xs|
  {
    if |xs| > 0 {
      assert (xs + [x])[1..] == xs[1..] + [x];
      NonEmptySnoc(xs[1..], x);
    }
  }

  /**
   * `saveUserSelectedIdPs` stores in order: a sixth or later entry is dropped,
   * an earlier one is appended unless it is empty.
   */
  lemma KeptSnoc(idps: seq<string>, x: string)
    ensures |idps| < 5 ==> Kept(idps + [x]) == Kept(idps) + (if x == "" then [] else [x])
    ensures |idps| >= 5 ==> Kept(idps + [x]) == Kept(idps)
  {
    if |idps| < 5 {
      assert (idps + [x])[..|idps| + 1] == idps + [x];
      assert idps[..|idps|] == idps;
      NonEmptySnoc(idps, x);
    } else {
      assert (idps + [x])[..5] == idps[..5];
    }
  }

  function EncodeAll(xs: seq<string>): (r: seq<string>)
    ensures |r| == |xs| && forall k :: 0 <= k < |xs| ==> r[k] == EncodeEntry(xs[k])
  {
    seq(|xs|, k requires 0 <= k < |xs| => EncodeEntry(xs[k]))
  }

  /** The value `saveUserSelectedIdPs` writes after `_saml_idp=`. */
  function SaveValue(idps: seq<string>): string {
    Text.Join(EncodeAll(Kept(idps)), "+")
  }

  /**
   * One '+'-separated segment of the cookie value: skipped when empty, else
   * URI-decoded (a malformed escape makes `decodeURIComponent` throw: `None`)
   * and Base64-decoded, and kept only when the result is non-empty.
   */
  function DecodeSegment(seg: string): (r: Option<seq<string>>)
    ensures r.Some? ==> |r.value| <= 1 && forall k :: 0 <= k < |r.value| ==> r.value[k] != ""
    ensures seg == "" ==> r == Some([])
  {
    if seg == "" then Some([])
    else match UriComponent.Decode(seg)
      case None => None
      case Some(b) =>
        var dec := Base64Js.Decode(b);
        if |dec| > 0 then Some([dec]) else Some([])
  }

  function DecodeSegments(segs: seq<string>): (r: Option<seq<string>>)
    ensures r.Some? ==> |r.value| <= |segs| && forall k :: 0 <= k < |r.value| ==> r.value[k] != ""
  {
    if |segs| == 0 then Some([])
    else match (DecodeSegment(segs[0]), DecodeSegments(segs[1..]))
      case (Some(a), Some(b)) => Some(a + b)
      case _ => None
  }

  /** The IdPs `retrieveUserSelectedIdPs` reads from the value of one `_saml_idp` cookie. */
  function RetrieveValue(v: string): (r: Option<seq<string>>)
    ensures r.Some? ==> forall k :: 0 <= k < |r.value| ==> r.value[k] != ""
  {
    DecodeSegments(Text.SplitAll(Text.Trim(v), "+"))
  }

  const CookieName := "_saml_idp"

  /**
   * One `name=value` pair of `document.cookie`, split at its first '='; with
   * no '=' the name is empty and the value is the whole pair.
   */
  function CookiePair(c: string): (string, string) {
    var p := Text.IndexOf(c, "=");
    if p < 0 then ("", c) else (c[..p], c[p + 1..])
  }

  /** `retrieveUserSelectedIdPs`: the IdPs of every `_saml_idp` pair of the cookie string, in order. */
  function Retrieve(cookie: string): Option<seq<string>> {
    RetrievePairs(Text.SplitAll(cookie, ";"))
  }

  /** The IdPs one pair contributes: those of its value when its trimmed name is `_saml_idp`. */
  function PairIdPs(pair: string): (r: Option<seq<string>>)
    ensures r.Some? ==> forall k :: 0 <= k < |r.value| ==> r.value[k] != ""
  {
    var nv := CookiePair(pair);
    if Text.Trim(nv.0) == CookieName then RetrieveValue(nv.1) else Some([])
  }

  function RetrievePairs(pairs: seq<string>): (r: Option<seq<string>>)
    ensures r.Some? ==> forall k :: 0 <= k < |r.value| ==> r.value[k] != ""
  {
    if |pairs| == 0 then Some([])
    else
      var here := PairIdPs(pairs[0]);
      var rest := RetrievePairs(pairs[1..]);
      if here.Some? && rest.Some? then Some(here.value + rest.value) else None
  }

  /** `selectIdP`: the updated list is saved; the result is the new cookie value. */
  function SelectIdP(selected: seq<string>, x: string): string {
    SaveValue(Updated(selected, x))
  }

  // ----- round trip of the cookie value -----

  /** The characters a saved value is made of. */
  predicate CookieChar(c: char) {
    UriComponent.Unreserved(c) || c == '%' || c == '+'
  }

  predicate CookieText(s: string) {
    forall k :: 0 <= k < |s| ==> CookieChar(s[k])
  }

  lemma UriEncodeNonEmpty(t: string)
    requires |t| > 0
    ensures |UriComponent.Encode(t)| > 0
  {
    var c := t[0];
    if !UriComponent.Unreserved(c) {
      var bytes := UriComponent.Utf8(c as nat);
      assert UriComponent.Escapes(bytes) == UriComponent.Escape(bytes[0]) + UriComponent.Escapes(bytes[1..]);
    }
  }

  /** Text of unreserved characters and `%` has no '+'. */
  lemma EscapedText(e: string)
    requires forall k :: 0 <= k < |e| ==> UriComponent.Unreserved(e[k]) || e[k] == '%'
    ensures CookieText(e) && !Text.Contains(e, "+")
  {
    forall i | 0 <= i <= |e| - 1 ensures !Text.OccursAt(e, "+", i) {
      assert e[i..i + 1][0] == e[i];
    }
  }

  /** A stored entry is non-empty text without '+' or white space. */
  lemma EntryText(id: string)
    requires |id| > 0 && Base64Js.Latin1(id)
    ensures var e := EncodeEntry(id);
            |e| > 0 && CookieText(e) && !Text.Contains(e, "+")
  {
    var b := Base64Js.Encode(id);
    Base64Js.IndicesOfEncode(id);
    assert |b| > 0;
    UriEncodeNonEmpty(b);
    UriComponent.EncodeAlphabet(b);
    EscapedText(UriComponent.Encode(b));
  }

  /** A stored entry decodes back to the entityID. */
  lemma EntryDecodes(id: string)
    requires |id| > 0 && Base64Js.Latin1(id)
    ensures DecodeSegment(EncodeEntry(id)) == Some([id])
  {
    var b := Base64Js.Encode(id);
    Base64Js.IndicesOfEncode(id);
    UriEncodeNonEmpty(b);
    UriComponent.RoundTrip(b);
    Base64Js.RoundTrip(id);
  }

  /** A stored entry is non-empty text without '+' or white space, and decodes back to the entityID. */
  lemma EntryRoundTrip(id: string)
    requires |id| > 0 && Base64Js.Latin1(id)
    ensures var e := EncodeEntry(id);
            |e| > 0 && CookieText(e) && !Text.Contains(e, "+")
            && DecodeSegment(e) == Some([id])
  {
    EntryText(id);
    EntryDecodes(id);
  }

  lemma {:induction false} JoinCookieText(parts: seq<string>)
    requires forall k :: 0 <= k < |parts| ==> CookieText(parts[k])
    ensures CookieText(Text.Join(parts, "+"))
  {
    if |parts| > 1 {
      JoinCookieText(parts[1..]);
      var rest := Text.Join(parts[1..], "+");
      var s := parts[0] + "+" + rest;
      assert Text.Join(parts, "+") == s;
      forall k | 0 <= k < |s| ensures CookieChar(s[k]) {
        if k < |parts[0]| {
          assert s[k] == parts[0][k];
        } else if k == |parts[0]| {
          assert s[k] == '+';
        } else {
          assert s[k] == rest[k - |parts[0]| - 1];
        }
      }
    }
  }

  lemma {:induction false} DecodeEncoded(xs: seq<string>)
    requires forall k :: 0 <= k < |xs| ==> |xs[k]| > 0 && Base64Js.Latin1(xs[k])
    ensures DecodeSegments(EncodeAll(xs)) == Some(xs)
  {
    if |xs| > 0 {
      EntryRoundTrip(xs[0]);
      assert EncodeAll(xs)[1..] == EncodeAll(xs[1..]);
      DecodeEncoded(xs[1..]);
      assert [xs[0]] + xs[1..] == xs;
    }
  }

  /**
   * Reading back a saved value gives the entries that were stored: the
   * non-empty ones among the first five, for entityIDs of 8-bit code units.
   */
  lemma SaveRetrieve(idps: seq<string>)
    requires forall k :: 0 <= k < |idps| ==> Base64Js.Latin1(idps[k])
    ensures RetrieveValue(SaveValue(idps)) == Some(Kept(idps))
  {
    KeptEntries(idps);
    JoinedRoundTrip(Kept(idps));
  }

  /** Non-empty entries of 8-bit code units, encoded and joined with '+', are read back as they were. */
  lemma JoinedRoundTrip(xs: seq<string>)
    requires forall k :: 0 <= k < |xs| ==> |xs[k]| > 0 && Base64Js.Latin1(xs[k])
    ensures RetrieveValue(Text.Join(EncodeAll(xs), "+")) == Some(xs)
  {
    var parts := EncodeAll(xs);
    EncodedParts(xs);
    JoinedSegments(parts);
    DecodeEncoded(xs);
  }

  /** The '+'-joined entries, trimmed and split on '+', are the entries again ("" for none). */
  lemma JoinedSegments(parts: seq<string>)
    requires forall k :: 0 <= k < |parts| ==> CookieText(parts[k]) && !Text.Contains(parts[k], "+")
    ensures Text.SplitAll(Text.Trim(Text.Join(parts, "+")), "+") == if |parts| == 0 then [""] else parts
  {
    JoinCookieText(parts);
    var v := Text.Join(parts, "+");
    CookieTextTrim(v);
    if |parts| == 0 {
      assert v == "";
      assert Text.SplitAll("", "+") == [""];
    } else {
      Text.SplitJoin(parts, "+");
    }
  }

  lemma KeptEntries(idps: seq<string>)
    requires forall k :: 0 <= k < |idps| ==> Base64Js.Latin1(idps[k])
    ensures forall k :: 0 <= k < |Kept(idps)| ==> |Kept(idps)[k]| > 0 && Base64Js.Latin1(Kept(idps)[k])
  {
    var xs := Kept(idps);
    forall k | 0 <= k < |xs| ensures |xs[k]| > 0 && Base64Js.Latin1(xs[k]) {
      var j :| 0 <= j < |idps| && idps[j] == xs[k];
    }
  }

  lemma EncodedParts(xs: seq<string>)
    requires forall k :: 0 <= k < |xs| ==> |xs[k]| > 0 && Base64Js.Latin1(xs[k])
    ensures forall k :: 0 <= k < |xs| ==> CookieText(EncodeAll(xs)[k]) && !Text.Contains(EncodeAll(xs)[k], "+")
  {
    forall k | 0 <= k < |xs| ensures CookieText(EncodeAll(xs)[k]) && !Text.Contains(EncodeAll(xs)[k], "+") {
      EntryRoundTrip(xs[k]);
    }
  }

  lemma CookieTextTrim(v: string)
    requires CookieText(v)
    ensures Text.Trim(v) == v
  {
    forall k | 0 <= k < |v| ensures !Text.IsJsSpace(v[k]) {
      assert CookieChar(v[k]);
    }
    Text.TrimNoSpace(v);
  }

  /** A pair that starts with `_saml_idp=` has that name and the rest as its value. */
  lemma CookiePairOf(v: string)
    ensures CookiePair(CookieName + "=" + v) == (CookieName, v)
  {
    var c := CookieName + "=" + v;
    assert Text.OccursAt(c, "=", 9);
    forall j | 0 <= j < 9 ensures !Text.OccursAt(c, "=", j) {
      assert c[j..j + 1][0] == c[j];
    }
    assert c[..9] == CookieName;
    assert c[10..] == v;
  }

  lemma NoSemicolon(v: string)
    requires CookieText(v)
    ensures !Text.Contains(CookieName + "=" + v, ";")
  {
    var c := CookieName + "=" + v;
    forall i | 0 <= i <= |c| - 1 ensures !Text.OccursAt(c, ";", i) {
      assert c[i..i + 1][0] == c[i];
      if i >= 10 { assert c[i] == v[i - 10]; }
    }
  }

  lemma SaveValueText(idps: seq<string>)
    requires forall k :: 0 <= k < |idps| ==> Base64Js.Latin1(idps[k])
    ensures CookieText(SaveValue(idps))
  {
    KeptEntries(idps);
    EncodedParts(Kept(idps));
    JoinCookieText(EncodeAll(Kept(idps)));
  }

  /** The whole cookie string the browser hands back, `_saml_idp=<value>`, reads as the value does. */
  lemma RetrieveCookie(idps: seq<string>)
    requires forall k :: 0 <= k < |idps| ==> Base64Js.Latin1(idps[k])
    ensures Retrieve(CookieName + "=" + SaveValue(idps)) == Some(Kept(idps))
  {
    var v := SaveValue(idps);
    var c := CookieName + "=" + v;
    SaveRetrieve(idps);
    SaveValueText(idps);
    NoSemicolon(v);
    PairOfSaved(v);
    RetrieveSingle(c);
  }

  lemma PairOfSaved(v: string)
    ensures PairIdPs(CookieName + "=" + v) == RetrieveValue(v)
  {
    CookiePairOf(v);
    TrimCookieName();
  }

  lemma TrimCookieName()
    ensures Text.Trim(CookieName) == CookieName
  {
    forall k | 0 <= k < |CookieName| ensures !Text.IsJsSpace(CookieName[k]) {
    }
    Text.TrimNoSpace(CookieName);
  }

  /** A cookie string without ';' is a single pair. */
  lemma RetrieveSingle(c: string)
    requires !Text.Contains(c, ";")
    ensures PairIdPs(c).Some? ==> Retrieve(c) == PairIdPs(c)
  {
    assert Text.SplitAll(c, ";") == [c];
    assert [c][1..] == [];
    assert RetrievePairs([]) == Some([]);
    if PairIdPs(c).Some? {
      assert PairIdPs(c).value + [] == PairIdPs(c).value;
      assert RetrievePairs([c]) == PairIdPs(c);
    }
  }

  /** After a selection, the next read of the cookie lists the selected IdP first. */
  lemma SelectedComesFirst(selected: seq<string>, x: string)
    requires |x| > 0 && Base64Js.Latin1(x)
    requires forall k :: 0 <= k < |selected| ==> Base64Js.Latin1(selected[k])
    ensures var r := RetrieveValue(SelectIdP(selected, x));
            r.Some? && |r.value| >= 1 && r.value[0] == x
  {
    var u := Updated(selected, x);
    forall k | 0 <= k < |u| ensures Base64Js.Latin1(u[k]) {
      if k > 0 { assert u[k] in selected; }
    }
    SaveRetrieve(u);
    assert u[..Min(|u|, 5)][0] == x;
  }

  /**
   * The entry form's submit gate: the hidden entityID must be present, non-empty
   * and not the placeholder "-".
   */
  predicate SubmitAllowed(hidden: Option<string>) {
    hidden.Some? && hidden.value != "" && hidden.value != "-"
  }

  /** Submitting the entry form: `None` when the gate refuses, else the new cookie value. */
  function Submit(selected: seq<string>, hidden: Option<string>): (r: Option<string>)
    ensures r.Some? <==> SubmitAllowed(hidden)
    ensures r.Some? ==> r.value == SelectIdP(selected, hidden.value)
  {
    if SubmitAllowed(hidden) then Some(SelectIdP(selected, hidden.value)) else None
  }
}
