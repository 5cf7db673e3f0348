/**
 * The discovery page's own Base64 codec (`base64Encode` / `base64Decode` in
 * idpselect.js), used to store entity IDs in the `_saml_idp` cookie. It works
 * on UTF-16 code units, one character per code unit, and reproduces the
 * JavaScript arithmetic: `charCodeAt` past the end is NaN, whose shifts and
 * masks are 0; `charAt` past the end of the table is the empty string; the
 * empty string's `indexOf` is 0.
 */
module Base64Js {
  import opened Wrappers

  /** Entry `k` of the table `A-Z a-z 0-9 + / =`; entry 64, `=`, is the pad. */
  function TableChar(k: int): char
    requires 0 <= k < 65
  {
    if k < 26 then ('A' as int + k) as char
    else if k < 52 then ('a' as int + k - 26) as char
    else if k < 62 then ('0' as int + k - 52) as char
    else if k == 62 then '+'
    else if k == 63 then '/'
    else '='
  }

  /** `base64chars.indexOf(c)` for a one-character string `c`. */
  function TableIndex(c: char): (r: int)
    ensures -1 <= r < 65
    ensures r >= 0 ==> TableChar(r) == c
  {
    if 'A' <= c <= 'Z' then c as int - 'A' as int
    else if 'a' <= c <= 'z' then c as int - 'a' as int + 26
    else if '0' <= c <= '9' then c as int - '0' as int + 52
    else if c == '+' then 62
    else if c == '/' then 63
    else if c == '=' then 64
    else -1
  }

  /** The table holds each character once, so `indexOf` finds the entry back. */
  lemma TableIndexOfTableChar(k: int)
    requires 0 <= k < 65
    ensures TableIndex(TableChar(k)) == k
  {
  }

  /** The characters `/[^A-Za-z0-9\+\/\=]/g` does not strip. */
  predicate InTable(c: char) {
    TableIndex(c) >= 0
  }

  /** `base64chars.charAt(k)`: one character, or the empty string outside the table. */
  function CharAt(k: int): string {
    if 0 <= k < 65 then [TableChar(k)] else ""
  }

  /** JavaScript's `|` on non-negative operands, bit by bit. */
  function BitOr(a: nat, b: nat): (r: nat)
    ensures r <= a + b
    decreases a + b
  {
    if a == 0 then b
    else if b == 0 then a
    else 2 * BitOr(a / 2, b / 2) + (if a % 2 == 1 || b % 2 == 1 then 1 else 0)
  }

  function Pow2(k: nat): (r: nat)
    ensures r >= 1
  {
    if k == 0 then 1 else 2 * Pow2(k - 1)
  }

  /** When the bits of `y` lie below those of `x * 2^k`, `|` is addition. */
  lemma {:induction false} BitOrDisjoint(x: nat, y: nat, k: nat)
    requires y < Pow2(k)
    ensures BitOr(x * Pow2(k), y) == x * Pow2(k) + y
    decreases k
  {
    if k > 0 && x != 0 && y != 0 {
      var p := Pow2(k - 1);
      assert x * Pow2(k) == 2 * (x * p);
      assert (x * Pow2(k)) / 2 == x * p;
      assert (x * Pow2(k)) % 2 == 0;
      BitOrDisjoint(x, y / 2, k - 1);
    } else if k == 0 {
      assert y == 0;
    }
  }

  /** `(x << k) | y` is `x * 2^k + y` for `y` below `2^k`, at the three shifts the decoder uses. */
  lemma BitOrShifted(x: nat, y: nat)
    ensures y < 4 ==> BitOr(x * 4, y) == x * 4 + y
    ensures y < 16 ==> BitOr(x * 16, y) == x * 16 + y
    ensures y < 64 ==> BitOr(x * 64, y) == x * 64 + y
  {
    assert Pow2(2) == 4 && Pow2(4) == 16 && Pow2(6) == 64;
    if y < 4 { BitOrDisjoint(x, y, 2); }
    if y < 16 { BitOrDisjoint(x, y, 4); }
    if y < 64 { BitOrDisjoint(x, y, 6); }
  }

  /** `String.fromCharCode` for the small values the decoder produces. */
  function FromCharCode(n: nat): char
    requires n < 0xD800
  {
    n as char
  }

  /**
   * The four table positions one turn of the encoder's loop computes: `c1` is
   * a code unit, `c2` and `c3` the next two, or NaN (`None`) past the end.
   */
  function GroupIndices(c1: nat, c2: Option<nat>, c3: Option<nat>): (nat, nat, nat, nat) {
    var n2 := c2.GetOr(0);
    var n3 := c3.GetOr(0);
    (c1 / 4,
     (c1 % 4) * 16 + n2 / 16,
     if c2.None? then 64 else (n2 % 16) * 4 + n3 / 64,
     if c2.None? || c3.None? then 64 else n3 % 64)
  }

  function EncodeGroup(c1: nat, c2: Option<nat>, c3: Option<nat>): string {
    var e := GroupIndices(c1, c2, c3);
    CharAt(e.0) + CharAt(e.1) + CharAt(e.2) + CharAt(e.3)
  }

  /** `charCodeAt(i)`: NaN past the end. */
  function CodeAt(s: string, i: nat): Option<nat> {
    if i < |s| then Some(s[i] as nat) else None
  }

  /** `base64Encode`: three code units in, four table characters out. */
  function Encode(s: string): string
    decreases |s|
  {
    if |s| == 0 then ""
    else
      EncodeGroup(s[0] as nat, CodeAt(s, 1), CodeAt(s, 2))
      + Encode(if |s| <= 3 then [] else s[3..])
  }

  /**
   * `base64chars.indexOf` of every character that
   * `input.replace(/[^A-Za-z0-9\+\/\=]/g, '')` keeps, in order.
   */
  function Indices(s: string): (r: seq<nat>)
    ensures forall k :: 0 <= k < |r| ==> r[k] <= 64
    decreases |s|
  {
    if |s| == 0 then []
    else if TableIndex(s[0]) >= 0 then [TableIndex(s[0]) as nat] + Indices(s[1..])
    else Indices(s[1..])
  }

  lemma IndicesAppend(a: string, b: string)
    ensures Indices(a + b) == Indices(a) + Indices(b)
  {
    if |a| > 0 {
      assert (a + b)[1..] == a[1..] + b;
      IndicesAppend(a[1..], b);
    } else {
      assert a + b == b;
    }
  }

  /** `indexOf(input.charAt(i))`: 0 past the end, where `charAt` gives "". */
  function EncAt(t: seq<nat>, i: nat): (r: nat)
    requires forall k :: 0 <= k < |t| ==> t[k] <= 64
    ensures r <= 64
  {
    if i < |t| then t[i] else 0
  }

  /** The characters one turn of the decoder's loop appends. */
  function DecodeQuad(e1: nat, e2: nat, e3: nat, e4: nat): (r: string)
    requires e1 <= 64 && e2 <= 64 && e3 <= 64 && e4 <= 64
    ensures 1 <= |r| <= 3
  {
    var chr1 := BitOr(e1 * 4, e2 / 16);
    var chr2 := BitOr((e2 % 16) * 16, e3 / 4);
    var chr3 := BitOr((e3 % 4) * 64, e4);
    [FromCharCode(chr1)]
    + (if e3 != 64 then [FromCharCode(chr2)] else [])
    + (if e4 != 64 then [FromCharCode(chr3)] else [])
  }

  /** The decoder's do-while loop: at least one turn, four positions per turn. */
  function DecodeGroups(t: seq<nat>): string
    requires forall k :: 0 <= k < |t| ==> t[k] <= 64
    decreases |t|
  {
    DecodeQuad(EncAt(t, 0), EncAt(t, 1), EncAt(t, 2), EncAt(t, 3))
    + (if |t| > 4 then DecodeGroups(t[4..]) else "")
  }

  /** `base64Decode`. */
  function Decode(s: string): string {
    DecodeGroups(Indices(s))
  }

  /** Code units the encoder carries without loss: eight bits or fewer. */
  predicate Latin1(s: string) {
    forall k :: 0 <= k < |s| ==> s[k] as int < 256
  }

  lemma IndicesOfChar(c: char)
    ensures Indices([c]) == if TableIndex(c) >= 0 then [TableIndex(c) as nat] else []
  {
    assert [c][1..] == [];
  }

  /** A group of the encoder's output is four table characters whose positions `indexOf` recovers. */
  lemma GroupIndicesOfEncode(c1: nat, c2: Option<nat>, c3: Option<nat>)
    requires c1 < 256 && c2.GetOr(0) < 256 && c3.GetOr(0) < 256
    ensures var e := GroupIndices(c1, c2, c3);
            e.0 < 64 && e.1 < 64 && e.2 <= 64 && e.3 <= 64
            && Indices(EncodeGroup(c1, c2, c3)) == [e.0, e.1, e.2, e.3]
  {
    var e := GroupIndices(c1, c2, c3);
    var a, b, c, d := TableChar(e.0), TableChar(e.1), TableChar(e.2), TableChar(e.3);
    TableIndexOfTableChar(e.0);
    TableIndexOfTableChar(e.1);
    TableIndexOfTableChar(e.2);
    TableIndexOfTableChar(e.3);
    IndicesOfChar(a);
    IndicesOfChar(b);
    IndicesOfChar(c);
    IndicesOfChar(d);
    assert EncodeGroup(c1, c2, c3) == [a] + [b] + [c] + [d];
    IndicesAppend([a] + [b] + [c], [d]);
    IndicesAppend([a] + [b], [c]);
    IndicesAppend([a], [b]);
  }

  /** The encoder's output has table positions exactly when its input is non-empty. */
  lemma IndicesOfEncode(s: string)
    requires Latin1(s)
    ensures |Indices(Encode(s))| == 0 <==> |s| == 0
  {
    if |s| > 0 {
      var rest := if |s| <= 3 then [] else s[3..];
      GroupIndicesOfEncode(s[0] as nat, CodeAt(s, 1), CodeAt(s, 2));
      IndicesAppend(EncodeGroup(s[0] as nat, CodeAt(s, 1), CodeAt(s, 2)), Encode(rest));
    }
  }

  lemma DecodeGroupsCons(g: seq<nat>, rest: seq<nat>)
    requires |g| == 4
    requires forall k :: 0 <= k < |g| ==> g[k] <= 64
    requires forall k :: 0 <= k < |rest| ==> rest[k] <= 64
    ensures forall k :: 0 <= k < |g + rest| ==> (g + rest)[k] <= 64
    ensures DecodeGroups(g + rest)
         == DecodeQuad(g[0], g[1], g[2], g[3]) + (if |rest| > 0 then DecodeGroups(rest) else "")
  {
    assert (g + rest)[4..] == rest;
  }

  /** One turn of the decoder undoes one turn of the encoder. */
  lemma QuadRoundTrip(c1: nat, c2: Option<nat>, c3: Option<nat>)
    requires c1 < 256 && c2.GetOr(0) < 256 && c3.GetOr(0) < 256
    requires c2.None? ==> c3.None?
    ensures var e := GroupIndices(c1, c2, c3);
            e.0 <= 64 && e.1 <= 64 && e.2 <= 64 && e.3 <= 64
            && DecodeQuad(e.0, e.1, e.2, e.3)
               == [c1 as char]
                  + (if c2.Some? then [c2.value as char] else [])
                  + (if c3.Some? then [c3.value as char] else [])
  {
    var n2 := c2.GetOr(0);
    var n3 := c3.GetOr(0);
    var e := GroupIndices(c1, c2, c3);
    assert e.1 / 16 == c1 % 4;
    BitOrShifted(e.0, c1 % 4);
    assert BitOr(e.0 * 4, e.1 / 16) == c1;
    if c2.Some? {
      assert (e.1 % 16) == n2 / 16 && e.2 / 4 == n2 % 16;
      BitOrShifted(n2 / 16, n2 % 16);
      assert BitOr((e.1 % 16) * 16, e.2 / 4) == n2;
    }
    if c3.Some? {
      assert e.2 % 4 == n3 / 64 && e.3 == n3 % 64;
      BitOrShifted(n3 / 64, n3 % 64);
      assert BitOr((e.2 % 4) * 64, e.3) == n3;
    }
  }

  /** The first group of the encoder's output decodes to the first three code units or fewer. */
  lemma FirstGroupRoundTrip(s: string)
    requires |s| > 0 && Latin1(s)
    ensures var q := Indices(EncodeGroup(s[0] as nat, CodeAt(s, 1), CodeAt(s, 2)));
            |q| == 4 && q[0] <= 64 && q[1] <= 64 && q[2] <= 64 && q[3] <= 64
            && DecodeQuad(q[0], q[1], q[2], q[3]) == s[..if |s| < 3 then |s| else 3]
  {
    var c1, c2, c3 := s[0] as nat, CodeAt(s, 1), CodeAt(s, 2);
    GroupIndicesOfEncode(c1, c2, c3);
    QuadRoundTrip(c1, c2, c3);
    if |s| >= 3 {
      assert s[..3] == [s[0]] + [s[1]] + [s[2]];
    } else if |s| == 2 {
      assert s[..2] == [s[0]] + [s[1]];
    } else {
      assert s[..1] == [s[0]];
    }
  }

  lemma {:induction false} DecodeGroupsOfEncode(s: string)
    requires |s| > 0 && Latin1(s)
    ensures forall k :: 0 <= k < |Indices(Encode(s))| ==> Indices(Encode(s))[k] <= 64
    ensures DecodeGroups(Indices(Encode(s))) == s
    decreases |s|
  {
    var rest := if |s| <= 3 then [] else s[3..];
    var g := EncodeGroup(s[0] as nat, CodeAt(s, 1), CodeAt(s, 2));
    var q := Indices(g);
    FirstGroupRoundTrip(s);
    assert Encode(s) == g + Encode(rest);
    IndicesAppend(g, Encode(rest));
    IndicesOfEncode(rest);
    DecodeGroupsCons(q, Indices(Encode(rest)));
    if |s| > 3 {
      DecodeGroupsOfEncode(rest);
      assert s == s[..3] + rest;
    }
  }

  /**
   * A non-empty string of code units below 256 survives the codec; the
   * empty string does not (see `DecodeEmpty`).
   */
  lemma RoundTrip(s: string)
    requires |s| > 0 && Latin1(s)
    ensures Decode(Encode(s)) == s
  {
    DecodeGroupsOfEncode(s);
  }

  /** Everything the encoder writes survives the decoder's filter. */
  lemma {:induction false} EncodeInTable(s: string)
    ensures forall k :: 0 <= k < |Encode(s)| ==> TableIndex(Encode(s)[k]) >= 0
    decreases |s|
  {
    if |s| > 0 {
      var rest := if |s| <= 3 then [] else s[3..];
      EncodeInTable(rest);
      var e := GroupIndices(s[0] as nat, CodeAt(s, 1), CodeAt(s, 2));
      forall k | 0 <= k < 4 ensures CharAt([e.0, e.1, e.2, e.3][k]) == "" || TableIndex(CharAt([e.0, e.1, e.2, e.3][k])[0]) >= 0 {
        var x := [e.0, e.1, e.2, e.3][k];
        if 0 <= x < 65 { TableIndexOfTableChar(x); }
      }
    }
  }

  /** The loop runs once even on an empty input: three NUL characters come out. */
  lemma DecodeEmpty()
    ensures Decode("") == "\0\0\0"
  {
    assert BitOr(0, 0) == 0;
  }

  /** A code unit far above 255 loses its high bits: U+4000 does not come back. */
  lemma WideCodeUnitLost()
    ensures Decode(Encode("\U{4000}")) != "\U{4000}"
  {
    assert Encode("\U{4000}") == "A==" by {
      assert EncodeGroup(0x4000, None, None) == CharAt(0x1000) + CharAt(0) + CharAt(64) + CharAt(64);
    }
    assert Indices("A==") == [0, 64, 64];
    assert BitOr(0, 4) == 4;
  }
}
