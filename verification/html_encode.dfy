/**
 * The discovery widget's HTML-encoding helpers: the set of characters to
 * encode (the configured ones plus the six that are always encoded), the
 * search for the first character needing encoding, and the encoder that
 * writes each such character as a hexadecimal character reference `&#xhhhh;`.
 */
module HtmlEncode {
  import Text
  import UriComponent

  /** The widget's default `HTMLEncodeChars`. */
  const DefaultEncodeChars := "#%&():[]`{}"

  /** The characters that are always encoded. */
  const AlwaysEncoded := "<>&'\"\\"

  /** `c` occurs in `s`. */
  predicate Has(s: string, c: char) {
    c in s
  }

  /**
   * `AddMissingChar`: `c` is put in front of `s` unless `s` already holds it
   * (the source tests `s.indexOf(c) < 0`, which `IndexOfAbsent` shows is the same).
   */
  function AddMissingChar(s: string, c: char): (r: string)
    ensures Has(r, c)
    ensures Has(s, c) ==> r == s
    ensures !Has(s, c) ==> r == [c] + s
  {
    if c in s then s else [c] + s
  }

  /** `indexOf` of a one-character string is negative exactly when the character is absent. */
  lemma IndexOfAbsent(s: string, c: char)
    ensures Text.IndexOf(s, [c]) < 0 <==> !Has(s, c)
  {
    if c in s {
      var k :| 0 <= k < |s| && s[k] == c;
      assert s[k..k + 1] == [c];
      assert Text.OccursAt(s, [c], k);
    }
    if Text.IndexOf(s, [c]) >= 0 {
      assert Text.OccursAt(s, [c], Text.IndexOf(s, [c]));
      assert s[Text.IndexOf(s, [c])] == c;
    }
  }

  /** Adds, one after the other, each character of `cs` that is missing. */
  function AddAll(s: string, cs: string): string
    decreases |cs|
  {
    if |cs| == 0 then s else AddAll(AddMissingChar(s, cs[0]), cs[1..])
  }

  /** Every character of `cs` is present in `r`; what `r` has in front of `s` was in `cs` and missing from `s`. */
  predicate Added(s: string, cs: string, r: string) {
    (forall c :: Has(cs, c) ==> Has(r, c))
    && |s| <= |r| && r[|r| - |s|..] == s
    && (forall k :: 0 <= k < |r| - |s| ==> Has(cs, r[k]) && !Has(s, r[k]))
  }

  /** Every character of `cs` ends up present; what is added goes in front and was missing. */
  lemma {:induction false} AddAllFacts(s: string, cs: string)
    ensures Added(s, cs, AddAll(s, cs))
    decreases |cs|
  {
    if |cs| > 0 {
      var t := AddMissingChar(s, cs[0]);
      var r := AddAll(t, cs[1..]);
      assert AddAll(s, cs) == r;
      AddAllFacts(t, cs[1..]);
      AddAllStep(s, cs, t, r);
    }
  }

  lemma AddAllStep(s: string, cs: string, t: string, r: string)
    requires |cs| > 0 && t == AddMissingChar(s, cs[0])
    requires Added(t, cs[1..], r)
    ensures Added(s, cs, r)
  {
    forall c | Has(cs, c) ensures Has(r, c) {
      if c != cs[0] {
        var i :| 0 <= i < |cs| && cs[i] == c;
        assert cs[1..][i - 1] == c;
      } else {
        var j :| 0 <= j < |t| && t[j] == c;
        assert r[|r| - |t| + j] == c;
      }
    }
    assert t[|t| - |s|..] == s;
    assert r[|r| - |s|..] == r[|r| - |t|..][|t| - |s|..];
    forall k | 0 <= k < |r| - |s| ensures Has(cs, r[k]) && !Has(s, r[k]) {
      if k < |r| - |t| {
        var c := r[k];
        var i :| 0 <= i < |cs[1..]| && cs[1..][i] == c;
        assert cs[i + 1] == c;
      } else {
        assert r[k] == t[k - (|r| - |t|)];
        assert t == [cs[0]] + s;
        assert r[k] == cs[0];
      }
    }
  }

  /** `AddMissingHTMLEncodeChars`: adds '<', '>', '&', '\'', '"' and '\\' in that order. */
  function AddMissing(s: string): (r: string)
    ensures forall c :: Has(AlwaysEncoded, c) ==> Has(r, c)
    ensures Text.EndsWith(r, s)
    ensures forall k :: 0 <= k < |r| - |s| ==> Has(AlwaysEncoded, r[k]) && !Has(s, r[k])
  {
    AddAllFacts(s, AlwaysEncoded);
    AddAll(s, AlwaysEncoded)
  }

  lemma {:induction false} AddAllPresent(t: string, cs: string)
    requires forall c :: Has(cs, c) ==> Has(t, c)
    ensures AddAll(t, cs) == t
    decreases |cs|
  {
    if |cs| > 0 {
      assert forall c :: Has(cs[1..], c) ==> Has(cs, c);
      AddAllPresent(t, cs[1..]);
    }
  }

  /** Adding the missing characters a second time changes nothing. */
  lemma AddMissingIdempotent(s: string)
    ensures AddMissing(AddMissing(s)) == AddMissing(s)
  {
    AddAllFacts(s, AlwaysEncoded);
    AddAllPresent(AddMissing(s), AlwaysEncoded);
  }

  lemma {:induction false} AddAllSnoc(s: string, cs: string, c: char)
    ensures AddAll(s, cs + [c]) == AddMissingChar(AddAll(s, cs), c)
    decreases |cs|
  {
    if |cs| == 0 {
      assert ([] + [c])[1..] == [];
    } else {
      assert (cs + [c])[1..] == cs[1..] + [c];
      AddAllSnoc(AddMissingChar(s, cs[0]), cs[1..], c);
    }
  }

  /** A character in neither the string nor the characters to add is not in the result. */
  lemma NotAdded(s: string, cs: string, c: char)
    requires !Has(s, c) && !Has(cs, c)
    ensures !Has(AddAll(s, cs), c)
  {
    AddAllFacts(s, cs);
  }

  /**
   * With the default configuration the encode set starts with the backslash,
   * the last always-encoded character, which the default set lacks.
   */
  lemma DefaultSetHead()
    ensures |AddMissing(DefaultEncodeChars)| > 0 && AddMissing(DefaultEncodeChars)[0] == '\\'
  {
    var first := "<>&'\"";
    assert AlwaysEncoded == first + ['\\'];
    assert !Has(DefaultEncodeChars, '\\');
    assert !Has(first, '\\');
    NotAdded(DefaultEncodeChars, first, '\\');
    AddAllSnoc(DefaultEncodeChars, first, '\\');
  }

  /** The first index at or after `i` whose character the set holds (by the test `Found`), or -1. */
  function FirstFrom(s: string, chars: string, i: nat, strict: bool): (r: int)
    ensures r == -1 || (i <= r < |s| && Found(chars, s[r], strict))
    ensures forall j :: i <= j < |s| && (r == -1 || j < r) ==> !Found(chars, s[j], strict)
    decreases |s| - i
  {
    if i >= |s| then -1
    else if Found(chars, s[i], strict) then i
    else FirstFrom(s, chars, i + 1, strict)
  }

  /** The test of `hasEncodingChars`: `HTMLEncodeChars.indexOf(c) > 0` when `strict`, `>= 0` otherwise. */
  predicate Found(chars: string, c: char, strict: bool) {
    if strict then Text.IndexOf(chars, [c]) > 0 else Text.IndexOf(chars, [c]) >= 0
  }

  lemma FoundIff(chars: string, c: char)
    ensures Found(chars, c, false) <==> c in chars
  {
    if c in chars {
      var k :| 0 <= k < |chars| && chars[k] == c;
      assert chars[k..k + 1] == [c];
      assert Text.OccursAt(chars, [c], k);
    }
    if Found(chars, c, false) {
      assert Text.OccursAt(chars, [c], Text.IndexOf(chars, [c]));
      assert chars[Text.IndexOf(chars, [c])] == c;
    }
  }

  /** The test as written finds exactly the set's characters other than its first. */
  lemma FoundStrictIff(chars: string, c: char)
    ensures Found(chars, c, true) <==> c in chars && c != chars[0]
  {
    FoundIff(chars, c);
    if c in chars && c != chars[0] {
      assert !Text.OccursAt(chars, [c], 0) by { assert chars[0..1][0] == chars[0]; }
    }
    if Found(chars, c, true) {
      var p := Text.IndexOf(chars, [c]);
      assert Text.OccursAt(chars, [c], p) && chars[p] == c;
      assert !Text.OccursAt(chars, [c], 0);
    }
  }

  /**
   * `hasEncodingChars` as written: it accepts a character only when its index
   * in the set is above 0, so the set's first character is never found.
   */
  function HasEncodingCharsAsWritten(s: string, chars: string): (r: int)
    ensures r == -1 || (0 <= r < |s| && |chars| > 0 && s[r] in chars[1..])
    ensures r == -1 <==> forall k :: 0 <= k < |s| ==> s[k] !in chars || s[k] == chars[0]
    ensures r != -1 ==> s[r] != chars[0] && forall k :: 0 <= k < r ==> s[k] !in chars || s[k] == chars[0]
  {
    var r := FirstFrom(s, chars, 0, true);
    forall k | 0 <= k < |s| ensures Found(chars, s[k], true) <==> s[k] in chars && s[k] != chars[0] {
      FoundStrictIff(chars, s[k]);
    }
    if r >= 0 then
      var p := Text.IndexOf(chars, [s[r]]);
      assert Text.OccursAt(chars, [s[r]], p);
      assert chars[1..][p - 1] == s[r];
      r
    else r
  }

  /** The documented behaviour: the index of the first character that is in the set, or -1. */
  function HasEncodingChars(s: string, chars: string): (r: int)
    ensures r == -1 <==> forall k :: 0 <= k < |s| ==> s[k] !in chars
    ensures r != -1 ==> 0 <= r < |s| && s[r] in chars && forall k :: 0 <= k < r ==> s[k] !in chars
  {
    var r := FirstFrom(s, chars, 0, false);
    forall k | 0 <= k < |s| ensures Found(chars, s[k], false) <==> s[k] in chars {
      FoundIff(chars, s[k]);
    }
    r
  }

  /** `indexOf` of the set's first character is 0. */
  lemma IndexOfHead(chars: string, c: char)
    requires |chars| > 0 && chars[0] == c
    ensures Text.IndexOf(chars, [c]) == 0
  {
    assert Text.OccursAt(chars, [c], 0);
  }

  /** As written, the first character of the set is never reported; the intended search finds it. */
  lemma AsWrittenMissesFirstChar(chars: string)
    requires |chars| > 0
    ensures HasEncodingCharsAsWritten([chars[0]], chars) == -1
    ensures HasEncodingChars([chars[0]], chars) == 0
  {
    IndexOfHead(chars, chars[0]);
    assert FirstFrom([chars[0]], chars, 1, true) == -1;
  }

  /** With the default configuration a lone backslash is not reported as needing encoding. */
  lemma AsWrittenMissesBackslash()
    ensures HasEncodingCharsAsWritten("\\", AddMissing(DefaultEncodeChars)) == -1
    ensures HasEncodingChars("\\", AddMissing(DefaultEncodeChars)) == 0
  {
    DefaultSetHead();
    AsWrittenMissesFirstChar(AddMissing(DefaultEncodeChars));
  }

  /** Lower-case hexadecimal digit, as `Number.toString(16)` writes them. */
  function LowerHex(n: nat): char
    requires n < 16
  {
    if n < 10 then ('0' as int + n) as char else ('a' as int + n - 10) as char
  }

  /** `n.toString(16)`: the digits without leading zeros. */
  function ToHex(n: nat): (r: string)
    ensures 1 <= |r|
    decreases n
  {
    if n < 16 then [LowerHex(n)] else ToHex(n / 16) + [LowerHex(n % 16)]
  }

  /** Four lower-case digits, most significant first. */
  function Hex4(n: nat): (r: string)
    requires n < 0x10000
    ensures |r| == 4
  {
    var q1 := n / 16;
    var q2 := q1 / 16;
    [LowerHex(q2 / 16), LowerHex(q2 % 16), LowerHex(q1 % 16), LowerHex(n % 16)]
  }

  /** The reference `HTMLEncode` writes for one character: "&#x0000" cut to make room for the digits. */
  function Reference(c: char): string {
    var hex := ToHex(c as nat);
    var pad := "&#x0000";
    pad[..if |hex| <= 7 then 7 - |hex| else 0] + hex + ";"
  }

  /** For a UTF-16 code unit the reference is `&#x` and four digits. */
  lemma ReferenceOfCodeUnit(c: char)
    requires c as int < 0x10000
    ensures Reference(c) == "&#x" + Hex4(c as nat) + ";"
  {
    var n := c as nat;
    var hex := ToHex(n);
    PaddedHex(n);
    assert "&#x0000"[..7 - |hex|] == "&#x" + "0000"[..4 - |hex|];
  }

  /** `n.toString(16)` padded on the left with zeros to four digits. */
  lemma PaddedHex(n: nat)
    requires n < 0x10000
    ensures |ToHex(n)| <= 4 && "0000"[..4 - |ToHex(n)|] + ToHex(n) == Hex4(n)
  {
    var q1 := n / 16;
    var q2 := q1 / 16;
    if n < 16 {
      assert q1 == 0 && q2 == 0;
    } else if q1 < 16 {
      HexStep(n);
      assert q2 == 0;
    } else if q2 < 16 {
      HexStep(n);
      HexStep(q1);
    } else {
      HexStep(n);
      HexStep(q1);
      HexStep(q2);
    }
  }

  lemma HexStep(n: nat)
    requires n >= 16
    ensures ToHex(n) == ToHex(n / 16) + [LowerHex(n % 16)]
  {
  }

  function Segment(c: char, chars: string): string {
    if c in chars then Reference(c) else [c]
  }

  function EncodeFrom(s: string, chars: string): string {
    if |s| == 0 then "" else Segment(s[0], chars) + EncodeFrom(s[1..], chars)
  }

  /**
   * `HTMLEncode(s, hint)`: the characters before `hint` are kept; every later
   * character of the set is replaced by its character reference. `substring`
   * clamps `hint` into the string, and a negative start adds nothing.
   */
  function HTMLEncode(s: string, chars: string, hint: int): (r: string)
    ensures var h := if hint < 0 then 0 else if hint > |s| then |s| else hint;
            Text.StartsWith(r, s[..h])
  {
    var h := if hint < 0 then 0 else if hint > |s| then |s| else hint;
    s[..h] + EncodeFrom(s[h..], chars)
  }

  /** The characters a reference is made of. */
  predicate ReferenceChar(c: char) {
    c == '&' || c == '#' || c == 'x' || c == ';' || ('0' <= c <= '9') || ('a' <= c <= 'f')
  }

  /** The encoded text holds no character of the set except those that make up references. */
  lemma {:induction false} EncodedSafe(s: string, chars: string)
    requires forall k :: 0 <= k < |s| ==> s[k] as int < 0x10000
    ensures forall k :: 0 <= k < |EncodeFrom(s, chars)| ==>
      EncodeFrom(s, chars)[k] !in chars || ReferenceChar(EncodeFrom(s, chars)[k])
  {
    if |s| > 0 {
      EncodedSafe(s[1..], chars);
      var seg := Segment(s[0], chars);
      if s[0] in chars {
        ReferenceOfCodeUnit(s[0]);
        var n := s[0] as nat;
        assert forall k :: 0 <= k < |seg| ==> ReferenceChar(seg[k]);
      }
      var rest := EncodeFrom(s[1..], chars);
      forall k | 0 <= k < |seg + rest| ensures (seg + rest)[k] !in chars || ReferenceChar((seg + rest)[k]) {
        if k >= |seg| { assert (seg + rest)[k] == rest[k - |seg|]; }
      }
    }
  }

  // ----- the inverse: reading character references back -----

  function HexDigits(t: string): (r: int)
    requires |t| == 4
    ensures r == -1 || 0 <= r < 0x10000
  {
    var a, b, c, d := UriComponent.HexValue(t[0]), UriComponent.HexValue(t[1]),
                      UriComponent.HexValue(t[2]), UriComponent.HexValue(t[3]);
    if a < 0 || b < 0 || c < 0 || d < 0 then -1 else ((a * 16 + b) * 16 + c) * 16 + d
  }

  /** Replaces every `&#xhhhh;` naming a character by that character. */
  function Unescape(t: string): (r: string)
    decreases |t|
  {
    if |t| == 0 then ""
    else if |t| >= 8 && t[0] == '&' && t[1] == '#' && t[2] == 'x' && t[7] == ';' && HexDigits(t[3..7]) >= 0
            && UriComponent.IsScalar(HexDigits(t[3..7])) then
      [HexDigits(t[3..7]) as char] + Unescape(t[8..])
    else [t[0]] + Unescape(t[1..])
  }

  lemma HexDigitsOfHex4(n: nat)
    requires n < 0x10000
    ensures HexDigits(Hex4(n)) == n
  {
    var h := Hex4(n);
    var q1 := n / 16;
    var q2 := q1 / 16;
    LowerHexValue(q2 / 16);
    LowerHexValue(q2 % 16);
    LowerHexValue(q1 % 16);
    LowerHexValue(n % 16);
    Digits4(n);
  }

  lemma LowerHexValue(d: nat)
    requires d < 16
    ensures UriComponent.HexValue(LowerHex(d)) == d
  {
  }

  /** The four digits, weighed, give `n` back. */
  lemma Digits4(n: nat)
    requires n < 0x10000
    ensures var q1 := n / 16; var q2 := q1 / 16;
      ((q2 / 16 * 16 + q2 % 16) * 16 + q1 % 16) * 16 + n % 16 == n
  {
    var q1 := n / 16;
    var q2 := q1 / 16;
    assert n == q1 * 16 + n % 16;
    assert q1 == q2 * 16 + q1 % 16;
    assert q2 == q2 / 16 * 16 + q2 % 16;
  }

  lemma UnescapeReference(c: char, rest: string)
    requires c as int < 0x10000
    ensures Unescape(Reference(c) + rest) == [c] + Unescape(rest)
  {
    ReferenceOfCodeUnit(c);
    var t := Reference(c) + rest;
    HexDigitsOfHex4(c as nat);
    assert UriComponent.IsScalar(c as int);
    assert (c as int) as char == c;
    assert t[0] == '&' && t[1] == '#' && t[2] == 'x';
    assert t[3..7] == Hex4(c as nat);
    assert t[7] == ';';
    assert t[8..] == rest;
  }

  lemma UnescapePlain(c: char, rest: string)
    requires c != '&'
    ensures Unescape([c] + rest) == [c] + Unescape(rest)
  {
    var t := [c] + rest;
    assert t[1..] == rest;
  }

  /** When '&' itself is encoded, reading the references back gives the text that was encoded. */
  lemma {:induction false} UnescapeEncodeFrom(s: string, chars: string)
    requires '&' in chars
    requires forall k :: 0 <= k < |s| ==> s[k] as int < 0x10000
    ensures Unescape(EncodeFrom(s, chars)) == s
  {
    if |s| > 0 {
      var t := EncodeFrom(s[1..], chars);
      assert EncodeFrom(s, chars) == Segment(s[0], chars) + t;
      UnescapeSegment(s[0], chars, t);
      assert forall k :: 0 <= k < |s[1..]| ==> s[1..][k] == s[k + 1];
      UnescapeEncodeFrom(s[1..], chars);
      assert [s[0]] + s[1..] == s;
    }
  }

  lemma UnescapeSegment(c: char, chars: string, rest: string)
    requires '&' in chars && c as int < 0x10000
    ensures Unescape(Segment(c, chars) + rest) == [c] + Unescape(rest)
  {
    if c in chars {
      UnescapeReference(c, rest);
    } else {
      UnescapePlain(c, rest);
    }
  }

  lemma {:induction false} UnescapePrefix(a: string, b: string)
    requires '&' !in a
    ensures Unescape(a + b) == a + Unescape(b)
  {
    if |a| > 0 {
      UnescapePrefix(a[1..], b);
      assert a + b == [a[0]] + (a[1..] + b);
      UnescapePlain(a[0], a[1..] + b);
      assert [a[0]] + (a[1..] + Unescape(b)) == a + Unescape(b);
    } else {
      assert a + b == b;
    }
  }

  /**
   * Encoding from the first character that needs it, as the widget's name
   * encoding does, can be undone: the text before the hint holds no '&'.
   */
  lemma HTMLEncodeRoundTrip(s: string, chars: string)
    requires '&' in chars
    requires forall k :: 0 <= k < |s| ==> s[k] as int < 0x10000
    ensures var pos := HasEncodingChars(s, chars);
            pos >= 0 ==> Unescape(HTMLEncode(s, chars, pos)) == s
  {
    var pos := HasEncodingChars(s, chars);
    if pos >= 0 {
      EncodeAfterPlain(s, chars, pos);
    }
  }

  lemma PlainPrefix(s: string, chars: string, pos: nat)
    requires '&' in chars && pos <= |s|
    requires forall k :: 0 <= k < pos ==> s[k] !in chars
    ensures '&' !in s[..pos]
  {
    forall k | 0 <= k < pos ensures s[..pos][k] != '&' {
      assert s[..pos][k] == s[k];
    }
  }

  lemma EncodedSuffix(s: string, chars: string, pos: nat)
    requires pos <= |s|
    ensures HTMLEncode(s, chars, pos) == s[..pos] + EncodeFrom(s[pos..], chars)
  {
  }

  lemma CodeUnitsSuffix(s: string, pos: nat)
    requires pos <= |s|
    requires forall k :: 0 <= k < |s| ==> s[k] as int < 0x10000
    ensures forall k :: 0 <= k < |s[pos..]| ==> s[pos..][k] as int < 0x10000
  {
    forall k | 0 <= k < |s[pos..]| ensures s[pos..][k] as int < 0x10000 {
      assert s[pos..][k] == s[pos + k];
    }
  }

  lemma Rejoin(s: string, pos: nat)
    requires pos <= |s|
    ensures s[..pos] + s[pos..] == s
  {
  }

  lemma UnescapeAfter(x: string, a: string, e: string, b: string)
    requires x == a + e && '&' !in a && Unescape(e) == b
    ensures Unescape(x) == a + b
  {
    UnescapePrefix(a, e);
  }

  /** Text without '&' kept in front of an encoded tail that reads back is read back whole. */
  lemma Recombine(s: string, chars: string, pos: nat)
    requires pos <= |s| && '&' !in s[..pos]
    requires Unescape(EncodeFrom(s[pos..], chars)) == s[pos..]
    ensures Unescape(HTMLEncode(s, chars, pos)) == s
  {
    EncodedSuffix(s, chars, pos);
    Rejoin(s, pos);
    UnescapeAfter(HTMLEncode(s, chars, pos), s[..pos], EncodeFrom(s[pos..], chars), s[pos..]);
  }

  /** Encoding from a point before which no character needs it can be undone. */
  lemma EncodeAfterPlain(s: string, chars: string, pos: nat)
    requires '&' in chars && pos <= |s|
    requires forall k :: 0 <= k < |s| ==> s[k] as int < 0x10000
    requires forall k :: 0 <= k < pos ==> s[k] !in chars
    ensures Unescape(HTMLEncode(s, chars, pos)) == s
  {
    PlainPrefix(s, chars, pos);
    CodeUnitsSuffix(s, pos);
    UnescapeEncodeFrom(s[pos..], chars);
    Recombine(s, chars, pos);
  }
}
