/**
 * JavaScript's `encodeURIComponent` and `decodeURIComponent`, which the
 * discovery page wraps around each Base64 entity ID it stores in the
 * `_saml_idp` cookie. Characters are Unicode scalar values; a character
 * outside the unreserved set is written as the percent-escapes of its UTF-8
 * bytes. Decoding fails (`None`, JavaScript's `URIError`) on a malformed
 * escape or an invalid UTF-8 sequence.
 */
module UriComponent {
  import opened Wrappers

  /** The characters `encodeURIComponent` leaves alone. */
  predicate Unreserved(c: char) {
    ('A' <= c <= 'Z') || ('a' <= c <= 'z') || ('0' <= c <= '9')
    || c == '-' || c == '_' || c == '.' || c == '!' || c == '~' || c == '*'
    || c == '\'' || c == '(' || c == ')'
  }

  /** Upper-case hexadecimal digit, as `encodeURIComponent` writes them. */
  function HexDigit(n: nat): char
    requires n < 16
  {
    if n < 10 then ('0' as int + n) as char else ('A' as int + n - 10) as char
  }

  /** The value of a hexadecimal digit of either case, or -1. */
  function HexValue(c: char): (r: int)
    ensures -1 <= r < 16
  {
    if '0' <= c <= '9' then c as int - '0' as int
    else if 'A' <= c <= 'F' then c as int - 'A' as int + 10
    else if 'a' <= c <= 'f' then c as int - 'a' as int + 10
    else -1
  }

  lemma HexValueOfDigit(n: nat)
    requires n < 16
    ensures HexValue(HexDigit(n)) == n
  {
  }

  /** `%XX` for one byte. */
  function Escape(b: nat): string
    requires b < 256
  {
    ['%', HexDigit(b / 16), HexDigit(b % 16)]
  }

  predicate IsScalar(cp: int) {
    0 <= cp < 0x110000 && !(0xD800 <= cp < 0xE000)
  }

  predicate Continuation(b: nat) {
    0x80 <= b < 0xC0
  }

  /** The UTF-8 encoding of a Unicode scalar value. */
  function Utf8(cp: nat): (r: seq<nat>)
    requires IsScalar(cp)
    ensures 1 <= |r| <= 4
    ensures forall k :: 0 <= k < |r| ==> r[k] < 256
    ensures forall k :: 1 <= k < |r| ==> Continuation(r[k])
  {
    if cp < 0x80 then [cp]
    else if cp < 0x800 then [0xC0 + cp / 64, 0x80 + cp % 64]
    else if cp < 0x10000 then [0xE0 + cp / 4096, 0x80 + (cp / 64) % 64, 0x80 + cp % 64]
    else [0xF0 + cp / 262144, 0x80 + (cp / 4096) % 64, 0x80 + (cp / 64) % 64, 0x80 + cp % 64]
  }

  function Escapes(bytes: seq<nat>): string
    requires forall k :: 0 <= k < |bytes| ==> bytes[k] < 256
  {
    if |bytes| == 0 then "" else Escape(bytes[0]) + Escapes(bytes[1..])
  }

  function EncodeChar(c: char): string {
    if Unreserved(c) then [c] else Escapes(Utf8(c as nat))
  }

  /** `encodeURIComponent`. */
  function Encode(s: string): string {
    if |s| == 0 then "" else EncodeChar(s[0]) + Encode(s[1..])
  }

  /** What the decoder reads at one position: a plain character, an escaped byte, or a broken escape. */
  datatype Token = Plain(c: char) | Byte(b: nat) | Broken

  /** The string read left to right as characters and `%XX` escapes; a broken escape ends it. */
  function Tokens(s: string): seq<Token>
    decreases |s|
  {
    if |s| == 0 then []
    else if s[0] != '%' then [Plain(s[0])] + Tokens(s[1..])
    else if 3 <= |s| && HexValue(s[1]) >= 0 && HexValue(s[2]) >= 0 then
      [Byte(HexValue(s[1]) * 16 + HexValue(s[2]))] + Tokens(s[3..])
    else [Broken]
  }

  /** The number of bytes a UTF-8 sequence has, from its first byte; 0 when it cannot start one. */
  function SequenceLength(b: nat): nat {
    if 0xC0 <= b < 0xE0 then 2
    else if 0xE0 <= b < 0xF0 then 3
    else if 0xF0 <= b < 0xF8 then 4
    else 0
  }

  /** The bytes of the first `n` tokens, if they are all escaped continuation bytes. */
  function Continuations(ts: seq<Token>, n: nat): (r: Option<seq<nat>>)
    ensures r.Some? ==> n <= |ts| && |r.value| == n
    decreases n
  {
    if n == 0 then Some([])
    else if |ts| == 0 || !ts[0].Byte? || !Continuation(ts[0].b) then None
    else
      match Continuations(ts[1..], n - 1)
      case None => None
      case Some(bs) => Some([ts[0].b] + bs)
  }

  /** The scalar value a multi-byte sequence denotes, if it is valid UTF-8 (not overlong, not a surrogate). */
  function DecodeSequence(bytes: seq<nat>): (r: Option<char>)
    requires 2 <= |bytes| <= 4
  {
    var b0: int := bytes[0];
    if |bytes| == 2 then
      var v := (b0 - 0xC0) * 64 + (bytes[1] as int - 0x80);
      if 0x80 <= v < 0x800 then Some(v as char) else None
    else if |bytes| == 3 then
      var v := (b0 - 0xE0) * 4096 + (bytes[1] as int - 0x80) * 64 + (bytes[2] as int - 0x80);
      if 0x800 <= v < 0x10000 && IsScalar(v) then Some(v as char) else None
    else
      var v := (b0 - 0xF0) * 262144 + (bytes[1] as int - 0x80) * 4096
               + (bytes[2] as int - 0x80) * 64 + (bytes[3] as int - 0x80);
      if 0x10000 <= v < 0x110000 then Some(v as char) else None
  }

  function DecodeTokens(ts: seq<Token>): Option<string>
    decreases |ts|
  {
    if |ts| == 0 then Some("")
    else
      match ts[0]
      case Broken => None
      case Plain(c) =>
        (match DecodeTokens(ts[1..])
         case None => None
         case Some(t) => Some([c] + t))
      case Byte(b) =>
        if b < 0x80 then
          match DecodeTokens(ts[1..])
          case None => None
          case Some(t) => Some([b as char] + t)
        else
          var n := SequenceLength(b);
          if n == 0 then None
          else
            match Continuations(ts[1..], n - 1)
            case None => None
            case Some(bs) =>
              match DecodeSequence([b] + bs)
              case None => None
              case Some(c) =>
                match DecodeTokens(ts[n..])
                case None => None
                case Some(t) => Some([c] + t)
  }

  /** `decodeURIComponent`: `None` where JavaScript throws `URIError`. */
  function Decode(s: string): Option<string> {
    DecodeTokens(Tokens(s))
  }

  lemma TokensOfEscape(b: nat, rest: string)
    requires b < 256
    ensures Tokens(Escape(b) + rest) == [Byte(b)] + Tokens(rest)
  {
    HexValueOfDigit(b / 16);
    HexValueOfDigit(b % 16);
    assert (Escape(b) + rest)[3..] == rest;
  }

  function ByteTokens(bytes: seq<nat>): seq<Token> {
    if |bytes| == 0 then [] else [Byte(bytes[0])] + ByteTokens(bytes[1..])
  }

  lemma EscapesCons(bytes: seq<nat>, rest: string)
    requires |bytes| > 0 && forall k :: 0 <= k < |bytes| ==> bytes[k] < 256
    ensures Escapes(bytes) + rest == Escape(bytes[0]) + (Escapes(bytes[1..]) + rest)
  {
    var e, t := Escape(bytes[0]), Escapes(bytes[1..]);
    assert Escapes(bytes) == e + t;
    assert (e + t) + rest == e + (t + rest);
  }

  lemma {:induction false} TokensOfEscapes(bytes: seq<nat>, rest: string)
    requires forall k :: 0 <= k < |bytes| ==> bytes[k] < 256
    ensures Tokens(Escapes(bytes) + rest) == ByteTokens(bytes) + Tokens(rest)
    decreases |bytes|
  {
    if |bytes| > 0 {
      EscapesCons(bytes, rest);
      TokensOfEscapes(bytes[1..], rest);
      TokensOfEscape(bytes[0], Escapes(bytes[1..]) + rest);
    } else {
      assert Escapes(bytes) + rest == rest;
    }
  }

  lemma {:induction false} ContinuationsOfBytes(bytes: seq<nat>, more: seq<Token>)
    requires forall k :: 0 <= k < |bytes| ==> Continuation(bytes[k])
    ensures Continuations(ByteTokens(bytes) + more, |bytes|) == Some(bytes)
    decreases |bytes|
  {
    if |bytes| > 0 {
      ContinuationsOfBytes(bytes[1..], more);
      assert (ByteTokens(bytes) + more)[1..] == ByteTokens(bytes[1..]) + more;
      assert [bytes[0]] + bytes[1..] == bytes;
    }
  }

  lemma ByteTokensLength(bytes: seq<nat>)
    ensures |ByteTokens(bytes)| == |bytes|
  {
  }

  /** A valid UTF-8 encoding decodes to the scalar value it encodes. */
  lemma DecodeUtf8(cp: nat)
    requires IsScalar(cp) && cp >= 0x80
    ensures |Utf8(cp)| >= 2
    ensures SequenceLength(Utf8(cp)[0]) == |Utf8(cp)|
    ensures DecodeSequence(Utf8(cp)) == Some(cp as char)
  {
    if cp < 0x800 {
      DecodeUtf8Two(cp);
    } else if cp < 0x10000 {
      DecodeUtf8Three(cp);
    } else {
      DecodeUtf8Four(cp);
    }
  }

  lemma DecodeUtf8Two(cp: nat)
    requires 0x80 <= cp < 0x800
    ensures SequenceLength(0xC0 + cp / 64) == 2
    ensures DecodeSequence([0xC0 + cp / 64, 0x80 + cp % 64]) == Some(cp as char)
  {
    var hi, lo := cp / 64, cp % 64;
    assert hi * 64 + lo == cp;
  }

  lemma DecodeUtf8Three(cp: nat)
    requires 0x800 <= cp < 0x10000 && IsScalar(cp)
    ensures SequenceLength(0xE0 + cp / 4096) == 3
    ensures DecodeSequence([0xE0 + cp / 4096, 0x80 + (cp / 64) % 64, 0x80 + cp % 64]) == Some(cp as char)
  {
    var q := cp / 64;
    var a, b, c := cp / 4096, q % 64, cp % 64;
    assert q * 64 + c == cp;
    assert q / 64 == a;
    assert a * 64 + b == q;
    assert a * 4096 + b * 64 + c == cp;
  }

  lemma DecodeUtf8Four(cp: nat)
    requires 0x10000 <= cp < 0x110000
    ensures SequenceLength(0xF0 + cp / 262144) == 4
    ensures DecodeSequence([0xF0 + cp / 262144, 0x80 + (cp / 4096) % 64, 0x80 + (cp / 64) % 64, 0x80 + cp % 64])
            == Some(cp as char)
  {
    var q := cp / 64;
    var r := cp / 4096;
    var a, b, c, d := cp / 262144, r % 64, q % 64, cp % 64;
    assert q * 64 + d == cp;
    assert q / 64 == r;
    assert r * 64 + c == q;
    assert r / 64 == a;
    assert a * 64 + b == r;
    assert a * 262144 + b * 4096 + c * 64 + d == cp;
  }

  /** A character written as the tokens of a valid multi-byte sequence decodes back. */
  lemma DecodeSequenceTokens(c: char, bytes: seq<nat>, more: seq<Token>)
    requires 2 <= |bytes| <= 4 && 0x80 <= bytes[0] && SequenceLength(bytes[0]) == |bytes|
    requires forall k :: 1 <= k < |bytes| ==> Continuation(bytes[k])
    requires DecodeSequence(bytes) == Some(c)
    requires DecodeTokens(more).Some?
    ensures DecodeTokens(ByteTokens(bytes) + more) == Some([c] + DecodeTokens(more).value)
  {
    var ts := ByteTokens(bytes) + more;
    var n := |bytes|;
    assert ts[1..] == ByteTokens(bytes[1..]) + more;
    ContinuationsOfBytes(bytes[1..], more);
    assert [bytes[0]] + bytes[1..] == bytes;
    ByteTokensLength(bytes);
    assert ts[n..] == more;
  }

  lemma DecodeEncodeChar(c: char, rest: string)
    requires Decode(rest).Some?
    ensures Decode(EncodeChar(c) + rest) == Some([c] + Decode(rest).value)
  {
    var e := EncodeChar(c) + rest;
    if Unreserved(c) {
      assert e[1..] == rest;
    } else {
      var bytes := Utf8(c as nat);
      TokensOfEscapes(bytes, rest);
      if c as nat < 0x80 {
        assert ByteTokens(bytes) == [Byte(c as nat)];
        assert (ByteTokens(bytes) + Tokens(rest))[1..] == Tokens(rest);
      } else {
        DecodeUtf8(c as nat);
        DecodeSequenceTokens(c, bytes, Tokens(rest));
      }
    }
  }

  /** `decodeURIComponent(encodeURIComponent(s)) == s` for every string. */
  lemma {:induction false} RoundTrip(s: string)
    ensures Decode(Encode(s)) == Some(s)
    decreases |s|
  {
    if |s| > 0 {
      RoundTrip(s[1..]);
      DecodeEncodeChar(s[0], Encode(s[1..]));
      assert [s[0]] + s[1..] == s;
    }
  }

  /** The encoder writes only unreserved characters, `%` and hexadecimal digits. */
  lemma {:induction false} EncodeAlphabet(s: string)
    ensures forall k :: 0 <= k < |Encode(s)| ==>
      Unreserved(Encode(s)[k]) || Encode(s)[k] == '%'
    decreases |s|
  {
    if |s| > 0 {
      EncodeAlphabet(s[1..]);
      if !Unreserved(s[0]) {
        EscapesAlphabet(Utf8(s[0] as nat));
      }
    }
  }

  lemma {:induction false} EscapesAlphabet(bytes: seq<nat>)
    requires forall k :: 0 <= k < |bytes| ==> bytes[k] < 256
    ensures forall k :: 0 <= k < |Escapes(bytes)| ==>
      Unreserved(Escapes(bytes)[k]) || Escapes(bytes)[k] == '%'
    decreases |bytes|
  {
    if |bytes| > 0 {
      EscapesAlphabet(bytes[1..]);
    }
  }

  /** A `%` not followed by two hexadecimal digits is a `URIError`. */
  lemma TruncatedEscapeFails()
    ensures Decode("%2") == None
    ensures Decode("%zz") == None
  {
  }
}
