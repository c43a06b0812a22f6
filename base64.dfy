/** The PDF bytes kept between visits as base64 text (`bytesToBase64` and
    `base64ToBytes` in src/components/forms/FormWizard.tsx), with `btoa` and
    `atob` as the HTML standard defines them: the base64 alphabet and
    padding of section 4 of RFC 4648, and the forgiving decoder that skips
    ASCII whitespace and accepts a missing padding. */
module Base64 {
  import opened JsValues

  /** An element of a `Uint8Array`. */
  type byte = x: int | 0 <= x < 256

  /** A 6-bit group: one character of base64 text. */
  type sextet = x: int | 0 <= x < 64

  /** Table 1 of RFC 4648: the character that encodes each 6-bit value. */
  function EncodeChar(v: sextet): (c: char)
    ensures IsBase64Char(c)
  {
    if v < 26 then ('A' as int + v) as char
    else if v < 52 then ('a' as int + v - 26) as char
    else if v < 62 then ('0' as int + v - 52) as char
    else if v == 62 then '+'
    else '/'
  }

  /** The 64 characters of the alphabet; '=' is not one of them. */
  predicate IsBase64Char(c: char) {
    'A' <= c <= 'Z' || 'a' <= c <= 'z' || '0' <= c <= '9' || c == '+' || c == '/'
  }

  /** The value a character of the alphabet encodes. */
  function DecodeChar(c: char): (v: sextet)
    requires IsBase64Char(c)
    ensures EncodeChar(v) == c
  {
    if 'A' <= c <= 'Z' then c as int - 'A' as int
    else if 'a' <= c <= 'z' then c as int - 'a' as int + 26
    else if '0' <= c <= '9' then c as int - '0' as int + 52
    else if c == '+' then 62
    else 63
  }

  /** Each value has exactly one character. */
  lemma DecodeEncodeChar(v: sextet)
    ensures DecodeChar(EncodeChar(v)) == v
  {
  }

  /** A string whose every character code fits a byte, as `btoa` demands. */
  predicate IsBinary(s: string) {
    forall i :: 0 <= i < |s| ==> s[i] as int < 256
  }

  /** `String.fromCharCode(b)` for every byte, concatenated. */
  function Binary(bytes: seq<byte>): (s: string)
    ensures |s| == |bytes| && IsBinary(s)
  {
    seq(|bytes|, i requires 0 <= i < |bytes| => bytes[i] as char)
  }

  /** `s.charCodeAt(i)` for every index, stored into a `Uint8Array` (which
      keeps the code modulo 256). */
  function Codes(s: string): (bytes: seq<byte>)
    ensures |bytes| == |s|
  {
    seq(|s|, i requires 0 <= i < |s| => (s[i] as int) % 256)
  }

  /** Bytes turned into characters and back are the same bytes; a binary
      string turned into bytes and back is the same string. */
  lemma CodesBinary(bytes: seq<byte>, s: string)
    ensures Codes(Binary(bytes)) == bytes
    ensures IsBinary(s) ==> Binary(Codes(s)) == s
  {
    assert forall i :: 0 <= i < |bytes| ==> Codes(Binary(bytes))[i] == bytes[i];
    if IsBinary(s) {
      assert forall i :: 0 <= i < |s| ==> Binary(Codes(s))[i] == s[i];
    }
  }

  /** The four 6-bit values of a 24-bit group, most significant first. */
  function Quad(a: byte, b: byte, c: byte): (r: seq<sextet>)
    ensures |r| == 4
  {
    [a / 4, (a % 4) * 16 + b / 16, (b % 16) * 4 + c / 64, c % 64]
  }

  /** The three bytes of four 6-bit values. */
  function Triple(s0: sextet, s1: sextet, s2: sextet, s3: sextet): (r: seq<byte>)
    ensures |r| == 3
  {
    var x0: int, x1: int, x2: int := s0, s1, s2;
    [x0 * 4 + x1 / 16, (x1 % 16) * 16 + x2 / 4, (x2 % 4) * 64 + s3]
  }

  /** The 6-bit groups of `bytes`: four per 24-bit group, and for a final
      group of one (two) bytes the first two (three) of its four, the
      missing bits being zero. */
  function Sextets(b: seq<byte>): (r: seq<sextet>)
    ensures |r| % 4 != 1
    decreases |b|
  {
    if |b| >= 3 then Quad(b[0], b[1], b[2]) + Sextets(b[3..])
    else if |b| == 2 then Quad(b[0], b[1], 0)[..3]
    else if |b| == 1 then Quad(b[0], 0, 0)[..2]
    else []
  }

  /** The '=' characters that complete the final 4-character group. */
  function Padding(n: nat): (r: string)
    ensures forall i :: 0 <= i < |r| ==> r[i] == '='
  {
    if n % 3 == 1 then "==" else if n % 3 == 2 then "=" else ""
  }

  /** The characters of the alphabet for a sequence of 6-bit values. */
  function Chars(sx: seq<sextet>): (s: string)
    ensures |s| == |sx|
  {
    seq(|sx|, i requires 0 <= i < |sx| => EncodeChar(sx[i]))
  }

  /** The base64 encoding of `bytes` (section 4 of RFC 4648). */
  function Encode(bytes: seq<byte>): string {
    Chars(Sextets(bytes)) + Padding(|bytes|)
  }

  /** `btoa(s)`: a character beyond U+00FF makes it throw an
      "InvalidCharacterError" (None); otherwise the codes are encoded. */
  function Btoa(s: string): (r: Option<string>)
    ensures r.None? <==> !IsBinary(s)
  {
    if !IsBinary(s) then None
    else Some(Encode(Codes(s)))
  }

  /** The characters the HTML standard calls ASCII whitespace. */
  predicate IsAsciiWs(c: char) {
    c == '\t' || c == '\n' || c == '\U{000C}' || c == '\r' || c == ' '
  }

  /** `s` with every ASCII whitespace character removed. */
  function StripAsciiWs(s: string): (r: string)
    ensures forall i :: 0 <= i < |r| ==> !IsAsciiWs(r[i])
  {
    if s == [] then []
    else if IsAsciiWs(s[0]) then StripAsciiWs(s[1..])
    else [s[0]] + StripAsciiWs(s[1..])
  }

  /** When the length is a multiple of four, one or two trailing '=' are
      dropped. */
  function StripPadding(s: string): string {
    if |s| % 4 == 0 && |s| >= 2 && s[|s| - 2] == '=' && s[|s| - 1] == '=' then s[..|s| - 2]
    else if |s| % 4 == 0 && |s| >= 1 && s[|s| - 1] == '=' then s[..|s| - 1]
    else s
  }

  predicate AllBase64(s: string) {
    forall i :: 0 <= i < |s| ==> IsBase64Char(s[i])
  }

  /** The value of every character. */
  function Values(s: string): (sx: seq<sextet>)
    requires AllBase64(s)
    ensures |sx| == |s|
  {
    seq(|s|, i requires 0 <= i < |s| => DecodeChar(s[i]))
  }

  /** The bytes of a sequence of 6-bit values: three per group of four, and
      from a final group of three (two) values two bytes (one), the bits
      left over being dropped. */
  function Unsextets(sx: seq<sextet>): (r: seq<byte>)
    requires |sx| % 4 != 1
    decreases |sx|
  {
    if |sx| >= 4 then Triple(sx[0], sx[1], sx[2], sx[3]) + Unsextets(sx[4..])
    else if |sx| == 3 then Triple(sx[0], sx[1], sx[2], 0)[..2]
    else if |sx| == 2 then Triple(sx[0], sx[1], 0, 0)[..1]
    else []
  }

  /** `atob(data)`, the forgiving base64 decoder: whitespace is skipped, a
      padding is optional, and a length of 1 modulo 4 or a character outside
      the alphabet makes it throw an "InvalidCharacterError" (None). */
  function Atob(data: string): (r: Option<string>)
    ensures r.Some? ==> IsBinary(r.value)
  {
    var s := StripPadding(StripAsciiWs(data));
    if |s| % 4 == 1 || !AllBase64(s) then None
    else Some(Binary(Unsextets(Values(s))))
  }

  /** What `bytesToBase64` returns for `bytes`. */
  function Base64Of(bytes: seq<byte>): string {
    Btoa(Binary(bytes)).value
  }

  /** What `base64ToBytes` returns for `b64`; None when `atob` throws. */
  function BytesOf(b64: string): Option<seq<byte>> {
    match Atob(b64)
    case None => None
    case Some(bin) => Some(Codes(bin))
  }

  /** `bytesToBase64`: each byte becomes the character with that code, and
      `btoa` encodes the string, which it never rejects. */
  method BytesToBase64(bytes: array<byte>) returns (r: string)
    ensures Btoa(Binary(bytes[..])) == Some(r)
    ensures r == Encode(bytes[..])
  {
    var bin := "";
    for i := 0 to bytes.Length
      invariant bin == Binary(bytes[..i])
    {
      bin := bin + [bytes[i] as char];
    }
    assert bytes[..bytes.Length] == bytes[..];
    CodesBinary(bytes[..], bin);
    var encoded := Btoa(bin);
    r := encoded.value;
  }

  /** `base64ToBytes`: `atob`, then every character code stored into a
      fresh `Uint8Array`. */
  method Base64ToBytes(b64: string) returns (r: Option<array<byte>>)
    ensures r.None? <==> Atob(b64).None?
    ensures r.Some? ==> BytesOf(b64) == Some(r.value[..])
  {
    var decoded := Atob(b64);
    if decoded.None? {
      return None;
    }
    var bin := decoded.value;
    var arr := new byte[|bin|];
    for i := 0 to |bin|
      invariant forall k :: 0 <= k < i ==> arr[k] == (bin[k] as int) % 256
    {
      arr[i] := (bin[i] as int) % 256;
    }
    assert arr[..] == Codes(bin);
    return Some(arr);
  }

  /** The length of the 6-bit groups of `n` bytes. */
  lemma {:induction false} SextetsLength(b: seq<byte>)
    ensures |Sextets(b)| == 4 * (|b| / 3) + (if |b| % 3 == 0 then 0 else |b| % 3 + 1)
    decreases |b|
  {
    if |b| >= 3 {
      SextetsLength(b[3..]);
    }
  }

  /** Base64 text is four characters per three bytes, rounded up, all from
      the alphabet but a final '=' padding. */
  lemma EncodeShape(bytes: seq<byte>)
    ensures |Encode(bytes)| == 4 * ((|bytes| + 2) / 3)
    ensures var e := Encode(bytes);
            forall i :: 0 <= i < |e| ==> IsBase64Char(e[i]) || (e[i] == '=' && i >= |e| - 2)
  {
    SextetsLength(bytes);
  }

  /** One group of three bytes survives its four 6-bit values; so do the
      leading bytes of a shorter group. */
  lemma GroupRoundTrip(a: byte, b: byte, c: byte)
    ensures var q := Quad(a, b, c); Triple(q[0], q[1], q[2], q[3]) == [a, b, c]
    ensures var q := Quad(a, b, 0); Triple(q[0], q[1], q[2], 0)[..2] == [a, b]
    ensures var q := Quad(a, 0, 0); Triple(q[0], q[1], 0, 0)[..1] == [a]
  {
    var s1 := (a % 4) * 16 + b / 16;
    var s2 := (b % 16) * 4 + c / 64;
    assert s1 / 16 == a % 4 && s1 % 16 == b / 16;
    assert s2 / 4 == b % 16 && s2 % 4 == c / 64;
    var t1 := (a % 4) * 16;
    assert t1 / 16 == a % 4;
  }

  /** Decoding the 6-bit groups of `b` gives `b` back. */
  lemma {:induction false} UnsextetsSextets(b: seq<byte>)
    ensures Unsextets(Sextets(b)) == b
    decreases |b|
  {
    if |b| >= 3 {
      var sx := Sextets(b);
      var rest := Sextets(b[3..]);
      assert sx[..4] == Quad(b[0], b[1], b[2]) && sx[4..] == rest;
      UnsextetsSextets(b[3..]);
      GroupRoundTrip(b[0], b[1], b[2]);
      assert b == b[..3] + b[3..];
    } else if |b| == 2 {
      GroupRoundTrip(b[0], b[1], 0);
    } else if |b| == 1 {
      GroupRoundTrip(b[0], 0, 0);
    }
  }

  /** Base64 text holds no whitespace and no padding beyond the last
      group. */
  lemma {:induction false} StripAsciiWsNone(s: string)
    requires forall i :: 0 <= i < |s| ==> !IsAsciiWs(s[i])
    ensures StripAsciiWs(s) == s
    decreases |s|
  {
    if s != [] {
      StripAsciiWsNone(s[1..]);
      assert s == [s[0]] + s[1..];
    }
  }

  /** The decoder drops exactly the padding the encoder added. */
  lemma StripPaddingOf(body: string, n: nat)
    requires AllBase64(body) && (|body| + |Padding(n)|) % 4 == 0
    ensures StripPadding(body + Padding(n)) == body
  {
    var s := body + Padding(n);
    if body != [] {
      assert s[|body| - 1] == body[|body| - 1];
    }
    if Padding(n) == "=" {
      assert s[..|s| - 1] == body;
    } else if Padding(n) == "==" {
      assert s[..|s| - 2] == body;
    } else {
      assert s == body;
    }
  }

  /** Neither whitespace nor the padding survives in front of the
      decoder: what is left is the characters of the 6-bit groups. */
  lemma StripEncoded(bytes: seq<byte>)
    ensures StripPadding(StripAsciiWs(Encode(bytes))) == Chars(Sextets(bytes))
  {
    var e := Encode(bytes);
    EncodeShape(bytes);
    assert forall i :: 0 <= i < |e| ==> !IsAsciiWs(e[i]);
    StripAsciiWsNone(e);
    ValuesChars(Sextets(bytes));
    StripPaddingOf(Chars(Sextets(bytes)), |bytes|);
  }

  /** Every character of the alphabet gives back its value. */
  lemma ValuesChars(sx: seq<sextet>)
    ensures AllBase64(Chars(sx)) && Values(Chars(sx)) == sx
  {
    forall i | 0 <= i < |sx| ensures Values(Chars(sx))[i] == sx[i] {
      DecodeEncodeChar(sx[i]);
    }
  }

  /** `atob` undoes `btoa` on every string `btoa` accepts. */
  lemma AtobBtoa(s: string)
    requires IsBinary(s)
    ensures Atob(Btoa(s).value) == Some(s)
  {
    var bytes := Codes(s);
    StripEncoded(bytes);
    ValuesChars(Sextets(bytes));
    UnsextetsSextets(bytes);
    CodesBinary(bytes, s);
  }

  /** The round trip of `base64ToBytes(bytesToBase64(bytes))`: the same
      bytes come back. */
  lemma BytesRoundTrip(bytes: seq<byte>)
    ensures BytesOf(Base64Of(bytes)) == Some(bytes)
  {
    var s := Binary(bytes);
    AtobBtoa(s);
    CodesBinary(bytes, s);
  }
}
