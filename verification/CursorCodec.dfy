/** The pagination cursor (backend/app/repositories/post_repo.py, _encode_cursor, _decode_cursor):
    "<sort>|<primary>|<uuid>" in UTF-8, then base64 with the URL-safe alphabet and padding
    (section 5 of RFC 4648). */
module CursorCodec {
  import opened Basics

  type Byte = b: nat | b < 256
  type Nibble = x: nat | x < 16
  // A UUID as its 32 hexadecimal digits.
  type Uuid = d: seq<Nibble> | |d| == 32 witness seq(32, i => 0)

  // ---- UTF-8 ----

  function Utf8Char(c: char): (r: seq<Byte>)
    ensures 1 <= |r| <= 4
  {
    var n := c as int;
    if n < 0x80 then [n]
    else if n < 0x800 then [0xC0 + n / 64, 0x80 + n % 64]
    else if n < 0x1_0000 then [0xE0 + n / 4096, 0x80 + n / 64 % 64, 0x80 + n % 64]
    else [0xF0 + n / 262144, 0x80 + n / 4096 % 64, 0x80 + n / 64 % 64, 0x80 + n % 64]
  }

  function Utf8(s: string): seq<Byte> {
    if s == "" then [] else Utf8Char(s[0]) + Utf8(s[1..])
  }

  predicate Scalar(n: int) {
    0 <= n < 0xD800 || 0xE000 <= n < 0x11_0000
  }

  // Length of the sequence a lead byte announces.
  function LeadLength(b: Byte): nat {
    if b < 0x80 then 1 else if b < 0xC0 then 0 else if b < 0xE0 then 2 else if b < 0xF0 then 3 else if b < 0xF8 then 4 else 0
  }

  function Payload(bs: seq<Byte>): int
    requires 1 <= |bs| <= 4
  {
    var lead: int, n := bs[0], |bs|;
    if n == 1 then lead
    else if n == 2 then (lead - 0xC0) * 64 + Low(bs[1])
    else if n == 3 then (lead - 0xE0) * 4096 + Low(bs[1]) * 64 + Low(bs[2])
    else (lead - 0xF0) * 262144 + Low(bs[1]) * 4096 + Low(bs[2]) * 64 + Low(bs[3])
  }

  function Low(b: Byte): int {
    b as int - 0x80
  }

  // Strict: overlong forms, stray bytes and surrogates are refused.
  function DecodeUtf8Char(bs: seq<Byte>): (r: Option<char>)
    requires 1 <= |bs| <= 4
    ensures r.Some? ==> Utf8Char(r.value) == bs
  {
    var n := Payload(bs);
    if Scalar(n) && Utf8Char(n as char) == bs then Some(n as char) else None
  }

  function DecodeUtf8(bs: seq<Byte>): Option<string> {
    if bs == [] then Some("")
    else
      var k := LeadLength(bs[0]);
      if k == 0 || k > |bs| then None
      else
        var c := DecodeUtf8Char(bs[..k]);
        var rest := DecodeUtf8(bs[k..]);
        if c.Some? && rest.Some? then Some([c.value] + rest.value) else None
  }

  lemma CharPayload(c: char)
    ensures Payload(Utf8Char(c)) == c as int && LeadLength(Utf8Char(c)[0]) == |Utf8Char(c)|
    ensures DecodeUtf8Char(Utf8Char(c)) == Some(c)
  {
    var n := c as int;
    SixBits(n);
    if n < 0x80 {
      assert Utf8Char(c) == [n];
    } else if n < 0x800 {
      assert Payload(Utf8Char(c)) == n / 64 * 64 + n % 64;
    } else if n < 0x1_0000 {
      assert Payload(Utf8Char(c)) == n / 4096 * 4096 + n / 64 % 64 * 64 + n % 64;
    } else {
      assert Payload(Utf8Char(c)) == n / 262144 * 262144 + n / 4096 % 64 * 4096 + n / 64 % 64 * 64 + n % 64;
    }
  }

  // A number put together again from its groups of six bits.
  lemma SixBits(n: nat)
    ensures n == n / 64 * 64 + n % 64
    ensures n / 64 == n / 4096 * 64 + n / 64 % 64
    ensures n / 4096 == n / 262144 * 64 + n / 4096 % 64
  {
  }

  /** UTF-8 decoding undoes encoding for every text. */
  lemma {:induction false} Utf8RoundTrip(s: string)
    ensures DecodeUtf8(Utf8(s)) == Some(s)
  {
    if s != "" {
      var c := Utf8Char(s[0]);
      Utf8RoundTrip(s[1..]);
      CharPayload(s[0]);
      assert Utf8(s)[..|c|] == c && Utf8(s)[|c|..] == Utf8(s[1..]);
      assert s == [s[0]] + s[1..];
    }
  }

  /** The bytes of a character as the standard lays them out (section 3 of RFC 3629): the lead byte tells the length,
      the others carry six bits each, and the bits are those of the character. */
  lemma Utf8Layout(c: char)
    ensures var r, n := Utf8Char(c), c as int;
      && |r| == (if n < 0x80 then 1 else if n < 0x800 then 2 else if n < 0x1_0000 then 3 else 4)
      && (forall i :: 1 <= i < |r| ==> 0x80 <= r[i] < 0xC0)
      && (|r| == 1 ==> r[0] == n)
      && (|r| == 2 ==> 0xC2 <= r[0] < 0xE0 && n == (r[0] as int - 0xC0) * 64 + Low(r[1]))
      && (|r| == 3 ==> 0xE0 <= r[0] < 0xF0 && n == (r[0] as int - 0xE0) * 4096 + Low(r[1]) * 64 + Low(r[2]))
      && (|r| == 4 ==> 0xF0 <= r[0] < 0xF5)
      && (|r| == 4 ==> n == (r[0] as int - 0xF0) * 262144 + Low(r[1]) * 4096 + Low(r[2]) * 64 + Low(r[3]))
  {
    SixBits(c as int);
  }

  // ---- Base64, URL-safe alphabet, padded ----

  function Digit(x: nat): char
    requires x < 64
  {
    if x < 26 then ('A' as int + x) as char
    else if x < 52 then ('a' as int + x - 26) as char
    else if x < 62 then ('0' as int + x - 52) as char
    else if x == 62 then '-' else '_'
  }

  // A character of the URL-safe alphabet.
  predicate UrlSafe(c: char) {
    'A' <= c <= 'Z' || 'a' <= c <= 'z' || '0' <= c <= '9' || c == '-' || c == '_'
  }

  /** The alphabet in its order (table 2 of RFC 4648): A to Z, a to z, 0 to 9, minus, underscore. */
  lemma DigitsInOrder(x: nat)
    requires x < 64
    ensures UrlSafe(Digit(x))
    ensures Digit(0) == 'A' && Digit(26) == 'a' && Digit(52) == '0' && Digit(62) == '-' && Digit(63) == '_'
    ensures x !in {0, 26, 52, 62, 63} ==> Digit(x) as int == Digit(x - 1) as int + 1
  {
  }

  // All of the URL-safe alphabet, but for at most two '=' at the end if the text is padded.
  predicate SafeText(s: string, padded: bool) {
    forall i :: 0 <= i < |s| ==> UrlSafe(s[i]) || (padded && s[i] == '=' && i >= |s| - 2)
  }

  /** A cursor can stand in a URL as it is: the text has four characters for every three bytes begun, all of the
      URL-safe alphabet but for the padding. */
  lemma {:induction false} Base64IsUrlSafe(bs: seq<Byte>)
    ensures |Base64(bs)| == (|bs| + 2) / 3 * 4 && SafeText(Base64(bs), |bs| % 3 != 0)
  {
    hide Base64, SafeText;
    if |bs| > 2 {
      Base64IsUrlSafe(bs[3..]);
      FirstFour(bs);
      SafeAppend(Base64(bs)[..4], Base64(bs[3..]), |bs| % 3 != 0);
    } else {
      ShortIsSafe(bs);
    }
  }

  lemma SafeAppend(head: string, rest: string, padded: bool)
    requires SafeText(head, false) && SafeText(rest, padded)
    ensures SafeText(head + rest, padded)
  {
    hide UrlSafe;
  }

  lemma ShortIsSafe(bs: seq<Byte>)
    requires |bs| <= 2
    ensures |Base64(bs)| == (|bs| + 2) / 3 * 4 && SafeText(Base64(bs), |bs| % 3 != 0)
  {
    SafeDigits();
    hide Digit, UrlSafe;
  }

  lemma FirstFour(bs: seq<Byte>)
    requires |bs| > 2
    ensures |Base64(bs)| == 4 + |Base64(bs[3..])| && Base64(bs) == Base64(bs)[..4] + Base64(bs[3..])
    ensures SafeText(Base64(bs)[..4], false)
  {
    SafeDigits();
    hide Digit, UrlSafe;
  }

  lemma SafeDigits()
    ensures forall x: nat :: x < 64 ==> UrlSafe(Digit(x))
  {
  }

  function DigitValue(c: char): Option<nat> {
    if 'A' <= c <= 'Z' then Some(c as int - 'A' as int)
    else if 'a' <= c <= 'z' then Some(c as int - 'a' as int + 26)
    else if '0' <= c <= '9' then Some(c as int - '0' as int + 52)
    else if c == '-' then Some(62)
    else if c == '_' then Some(63)
    else None
  }

  function Base64(bs: seq<Byte>): string {
    if |bs| == 0 then ""
    else if |bs| == 1 then [Digit(bs[0] / 4), Digit(bs[0] % 4 * 16), '=', '=']
    else if |bs| == 2 then [Digit(bs[0] / 4), Digit(bs[0] % 4 * 16 + bs[1] / 16), Digit(bs[1] % 16 * 4), '=']
    else [Digit(bs[0] / 4), Digit(bs[0] % 4 * 16 + bs[1] / 16), Digit(bs[1] % 16 * 4 + bs[2] / 64), Digit(bs[2] % 64)]
         + Base64(bs[3..])
  }

  // One group of four; '=' may only fill up the last group.
  function DecodeGroup(a: char, b: char, c: char, d: char, last: bool): Option<seq<Byte>> {
    var w, x, y, z := DigitValue(a), DigitValue(b), DigitValue(c), DigitValue(d);
    if w.None? || x.None? then None
    else
      var first := w.value * 4 + x.value / 16;
      if c == '=' then (if d == '=' && last then Some([first]) else None)
      else if y.None? then None
      else
        var second := x.value % 16 * 16 + y.value / 4;
        if d == '=' then (if last then Some([first, second]) else None)
        else if z.None? then None
        else Some([first, second, y.value % 4 * 64 + z.value])
  }

  function DecodeBase64(s: string): Option<seq<Byte>> {
    if s == "" then Some([])
    else if |s| < 4 then None
    else
      var head := DecodeGroup(s[0], s[1], s[2], s[3], |s| == 4);
      var rest := DecodeBase64(s[4..]);
      if head.Some? && rest.Some? then Some(head.value + rest.value) else None
  }

  lemma DigitInverse(x: nat)
    requires x < 64
    ensures DigitValue(Digit(x)) == Some(x) && Digit(x) != '='
  {
  }

  lemma GroupRoundTrip(x: Byte, y: Byte, z: Byte, last: bool)
    ensures DecodeGroup(Digit(x / 4), Digit(x % 4 * 16 + y / 16), Digit(y % 16 * 4 + z / 64), Digit(z % 64), last) ==
      Some([x, y, z])
  {
    var i, j, k, m := x / 4, x % 4 * 16 + y / 16, y % 16 * 4 + z / 64, z % 64;
    DigitInverse(i);
    DigitInverse(j);
    DigitInverse(k);
    DigitInverse(m);
    BytesOfDigits(x, y, z);
    hide Digit, DigitValue;
    DigitsDecode(Digit(i), Digit(j), Digit(k), Digit(m), i, j, k, m, last);
  }

  lemma BytesOfDigits(x: Byte, y: Byte, z: Byte)
    ensures var i, j, k, m := x / 4, x % 4 * 16 + y / 16, y % 16 * 4 + z / 64, z % 64;
      i * 4 + j / 16 == x && j % 16 * 16 + k / 4 == y && k % 4 * 64 + m == z
  {
  }

  lemma DigitsDecode(a: char, b: char, c: char, d: char, i: nat, j: nat, k: nat, m: nat, last: bool)
    requires DigitValue(a) == Some(i) && DigitValue(b) == Some(j) && DigitValue(c) == Some(k)
    requires DigitValue(d) == Some(m)
    requires c != '=' && d != '='
    ensures DecodeGroup(a, b, c, d, last) == Some([i * 4 + j / 16, j % 16 * 16 + k / 4, k % 4 * 64 + m])
  {
    hide DigitValue;
  }

  lemma ShortGroupsRoundTrip(x: Byte, y: Byte)
    ensures DecodeGroup(Digit(x / 4), Digit(x % 4 * 16 + y / 16), Digit(y % 16 * 4), '=', true) == Some([x, y])
    ensures DecodeGroup(Digit(x / 4), Digit(x % 4 * 16), '=', '=', true) == Some([x])
  {
    DigitInverse(x / 4);
    DigitInverse(x % 4 * 16);
    DigitInverse(x % 4 * 16 + y / 16);
    DigitInverse(y % 16 * 4);
  }

  lemma DecodeFirstGroup(a: char, b: char, c: char, d: char, rest: string)
    ensures DecodeBase64([a, b, c, d] + rest) ==
              var head, tail := DecodeGroup(a, b, c, d, rest == ""), DecodeBase64(rest);
              if head.Some? && tail.Some? then Some(head.value + tail.value) else None
  {
  }

  /** Base64 decoding undoes encoding for every byte string, whatever its length modulo three. */
  lemma {:induction false} Base64RoundTrip(bs: seq<Byte>)
    ensures DecodeBase64(Base64(bs)) == Some(bs)
  {
    if |bs| >= 3 {
      var x, y, z, rest := bs[0], bs[1], bs[2], bs[3..];
      Base64RoundTrip(rest);
      FullGroup(x, y, z, rest);
      assert bs == [x, y, z] + rest;
    } else if |bs| > 0 {
      LastGroup(bs);
    } else {
      assert bs == [];
    }
  }

  lemma FullGroup(x: Byte, y: Byte, z: Byte, rest: seq<Byte>)
    requires DecodeBase64(Base64(rest)) == Some(rest)
    ensures DecodeBase64(Base64([x, y, z] + rest)) == Some([x, y, z] + rest)
  {
    var a, b, c, d := Digit(x / 4), Digit(x % 4 * 16 + y / 16), Digit(y % 16 * 4 + z / 64), Digit(z % 64);
    assert ([x, y, z] + rest)[3..] == rest;
    assert Base64([x, y, z] + rest) == [a, b, c, d] + Base64(rest);
    hide Digit, Base64, DecodeGroup, DecodeBase64;
    DecodeFirstGroup(a, b, c, d, Base64(rest));
    GroupRoundTrip(x, y, z, Base64(rest) == "");
  }

  lemma LastGroup(bs: seq<Byte>)
    requires 1 <= |bs| <= 2
    ensures DecodeBase64(Base64(bs)) == Some(bs)
  {
    if |bs| == 1 {
      assert bs == [bs[0]];
      OneByte(bs[0]);
    } else {
      assert bs == [bs[0], bs[1]];
      TwoBytes(bs[0], bs[1]);
    }
  }

  lemma OneByte(x: Byte)
    ensures DecodeBase64(Base64([x])) == Some([x])
  {
    var a, b := Digit(x / 4), Digit(x % 4 * 16);
    assert Base64([x]) == [a, b, '=', '='] + "";
    assert DecodeBase64("") == Some([]) && [x] + [] == [x];
    hide Digit, Base64, DecodeGroup, DecodeBase64;
    ShortGroupsRoundTrip(x, x);
    DecodeFirstGroup(a, b, '=', '=', "");
  }

  lemma TwoBytes(x: Byte, y: Byte)
    ensures DecodeBase64(Base64([x, y])) == Some([x, y])
  {
    var a, b, c := Digit(x / 4), Digit(x % 4 * 16 + y / 16), Digit(y % 16 * 4);
    assert Base64([x, y]) == [a, b, c, '='] + "";
    assert DecodeBase64("") == Some([]) && [x, y] + [] == [x, y];
    hide Digit, Base64, DecodeGroup, DecodeBase64;
    ShortGroupsRoundTrip(x, y);
    DecodeFirstGroup(a, b, c, '=', "");
  }

  // ---- UUID text ----

  function HexDigit(x: Nibble): char {
    if x < 10 then ('0' as int + x) as char else ('a' as int + x - 10) as char
  }

  function HexValue(c: char): Option<Nibble> {
    if '0' <= c <= '9' then Some(c as int - '0' as int)
    else if 'a' <= c <= 'f' then Some(c as int - 'a' as int + 10)
    else if 'A' <= c <= 'F' then Some(c as int - 'A' as int + 10)
    else None
  }

  function Hex(d: seq<Nibble>): (r: string)
    ensures |r| == |d| && forall i :: 0 <= i < |d| ==> r[i] == HexDigit(d[i])
  {
    seq(|d|, i requires 0 <= i < |d| => HexDigit(d[i]))
  }

  // 8-4-4-4-12
  function UuidText(u: Uuid): string {
    var h := Hex(u);
    h[..8] + "-" + h[8..12] + "-" + h[12..16] + "-" + h[16..20] + "-" + h[20..]
  }

  function NoDashes(s: string): string {
    if s == "" then "" else if s[0] == '-' then NoDashes(s[1..]) else [s[0]] + NoDashes(s[1..])
  }

  function Nibbles(s: string): Option<seq<Nibble>> {
    if s == "" then Some([])
    else
      var x, rest := HexValue(s[0]), Nibbles(s[1..]);
      if x.Some? && rest.Some? then Some([x.value] + rest.value) else None
  }

  // uuid.UUID(text): the dashes are dropped, 32 hexadecimal digits must remain.
  function ParseUuid(s: string): Option<Uuid> {
    var d := Nibbles(NoDashes(s));
    if d.Some? && |d.value| == 32 then Some(d.value) else None
  }

  lemma NoDashesFirst(c: char, rest: string)
    ensures NoDashes([c] + rest) == (if c == '-' then "" else [c]) + NoDashes(rest)
    ensures NoDashes("") == ""
  {
    assert ([c] + rest)[1..] == rest;
  }

  lemma {:induction false} NoDashesAppend(a: string, b: string)
    ensures NoDashes(a + b) == NoDashes(a) + NoDashes(b)
  {
    hide NoDashes;
    if a == "" {
      NoDashesFirst('-', b);
      assert a + b == b;
    } else {
      var rest := a[1..];
      NoDashesAppend(rest, b);
      NoDashesFirst(a[0], rest);
      NoDashesFirst(a[0], rest + b);
      assert a == [a[0]] + rest && a + b == [a[0]] + (rest + b);
    }
  }

  lemma {:induction false} DashFree(s: string)
    requires '-' !in s
    ensures NoDashes(s) == s
  {
    if s != "" {
      DashFree(s[1..]);
      assert s[0] != '-' && s == [s[0]] + s[1..];
    }
  }

  lemma {:induction false} NibblesOfHex(d: seq<Nibble>)
    ensures Nibbles(Hex(d)) == Some(d)
  {
    if d != [] {
      NibblesOfHex(d[1..]);
      assert Hex(d)[1..] == Hex(d[1..]);
      assert d == [d[0]] + d[1..];
    }
  }

  lemma UndashFive(a: string, b: string, c: string, d: string, e: string)
    requires forall x <- [a, b, c, d, e] :: '-' !in x
    ensures NoDashes(a + "-" + b + "-" + c + "-" + d + "-" + e) == a + b + c + d + e
  {
    assert a in [a, b, c, d, e] && b in [a, b, c, d, e] && c in [a, b, c, d, e] && d in [a, b, c, d, e] && e in [a, b, c, d, e];
    DashFree(a);
    DashFree(b);
    DashFree(c);
    DashFree(d);
    DashFree(e);
    Undash(a, b);
    Undash(a + "-" + b, c);
    Undash(a + "-" + b + "-" + c, d);
    Undash(a + "-" + b + "-" + c + "-" + d, e);
  }

  lemma Undash(a: string, b: string)
    requires '-' !in b
    ensures NoDashes(a + "-" + b) == NoDashes(a) + b
  {
    assert a + "-" + b == a + ("-" + b);
    NoDashesAppend(a, "-" + b);
    assert ("-" + b)[1..] == b;
    DashFree(b);
  }

  lemma UuidRoundTrip(u: Uuid)
    ensures ParseUuid(UuidText(u)) == Some(u)
  {
    var h := Hex(u);
    assert forall c <- h :: c != '-';
    UndashFive(h[..8], h[8..12], h[12..16], h[16..20], h[20..]);
    assert h == h[..8] + h[8..12] + h[12..16] + h[16..20] + h[20..];
    NibblesOfHex(u);
  }

  // ---- The cursor ----

  predicate NoBar(s: string) {
    '|' !in s
  }

  // Splits at the first bar.
  function Cut(s: string): (r: Option<(string, string)>)
    ensures r.Some? ==> NoBar(r.value.0) && s == r.value.0 + "|" + r.value.1
    ensures r.None? <==> NoBar(s)
  {
    if s == "" then None
    else
      assert s == [s[0]] + s[1..];
      if s[0] == '|' then Some(("", s[1..]))
      else
        var rest := Cut(s[1..]);
        if rest.Some? then Some(([s[0]] + rest.value.0, rest.value.1)) else None
  }

  lemma {:induction false} CutAtFirstBar(a: string, b: string)
    requires NoBar(a)
    ensures Cut(a + "|" + b) == Some((a, b))
  {
    var s := a + "|" + b;
    if a == "" {
      assert s[1..] == b;
    } else {
      CutAtFirstBar(a[1..], b);
      assert s[1..] == a[1..] + "|" + b;
      assert a == [a[0]] + a[1..];
    }
  }

  datatype Decoded = Cursor(sort: string, primary: string, id: Uuid) | InvalidCursor

  function Joined(sort: string, primary: string, last: string): string {
    sort + "|" + primary + "|" + last
  }

  function RawCursor(primary: string, id: Uuid, sort: string): string {
    Joined(sort, primary, UuidText(id))
  }

  function EncodeCursor(primary: string, id: Uuid, sort: string): string {
    Base64(Utf8(RawCursor(primary, id, sort)))
  }

  // raw.split("|", 2) must give three parts and the last must be a UUID.
  function ParseRaw(raw: string): Decoded {
    var first := Cut(raw);
    if first.None? then InvalidCursor
    else
      var second := Cut(first.value.1);
      if second.None? then InvalidCursor
      else
        var id := ParseUuid(second.value.1);
        if id.None? then InvalidCursor else Cursor(first.value.0, second.value.0, id.value)
  }

  function DecodeCursor(cursor: string): Decoded {
    var bytes := DecodeBase64(cursor);
    if bytes.None? then InvalidCursor
    else
      var raw := DecodeUtf8(bytes.value);
      if raw.None? then InvalidCursor else ParseRaw(raw.value)
  }

  lemma DecodeIsParse(primary: string, id: Uuid, sort: string)
    ensures DecodeCursor(EncodeCursor(primary, id, sort)) == ParseRaw(RawCursor(primary, id, sort))
  {
    var raw := RawCursor(primary, id, sort);
    Base64RoundTrip(Utf8(raw));
    Utf8RoundTrip(raw);
  }

  lemma ParseBarFree(sort: string, primary: string, last: string)
    requires NoBar(sort) && NoBar(primary)
    ensures ParseRaw(Joined(sort, primary, last)) ==
              if ParseUuid(last).Some? then Cursor(sort, primary, ParseUuid(last).value) else InvalidCursor
  {
    assert Joined(sort, primary, last) == sort + "|" + (primary + "|" + last);
    CutAtFirstBar(sort, primary + "|" + last);
    CutAtFirstBar(primary, last);
  }

  lemma ParseJoinedIff(sort: string, primary: string, last: string, id: Uuid)
    requires ParseUuid(last) == Some(id)
    ensures ParseRaw(Joined(sort, primary, last)) == Cursor(sort, primary, id) <==> NoBar(sort) && NoBar(primary)
  {
    if NoBar(sort) && NoBar(primary) {
      ParseBarFree(sort, primary, last);
    } else {
      ParsedIsBarFree(Joined(sort, primary, last));
    }
  }

  /** For every sort name, primary value (any Unicode text) and UUID, decoding gives back exactly what
      was encoded if and only if neither text contains a bar. */
  lemma CursorRoundTripIff(primary: string, id: Uuid, sort: string)
    ensures DecodeCursor(EncodeCursor(primary, id, sort)) == Cursor(sort, primary, id) <==>
      NoBar(sort) && NoBar(primary)
  {
    DecodeIsParse(primary, id, sort);
    UuidRoundTrip(id);
    ParseJoinedIff(sort, primary, UuidText(id), id);
  }

  lemma ParsedIsBarFree(raw: string)
    ensures ParseRaw(raw).Cursor? ==> NoBar(ParseRaw(raw).sort) && NoBar(ParseRaw(raw).primary)
  {
  }

  // The bar survives the removal of dashes, and is no hexadecimal digit.
  lemma {:induction false} BarIsNoHex(s: string)
    requires !NoBar(s)
    ensures Nibbles(NoDashes(s)) == None
  {
    assert s == [s[0]] + s[1..];
    if s[0] != '|' {
      BarIsNoHex(s[1..]);
    }
    if s[0] != '-' {
      assert NoDashes(s)[1..] == NoDashes(s[1..]);
    }
  }

  /** A cursor whose primary value contains a bar is refused rather than misread. */
  lemma BarInPrimaryIsRefused(primary: string, id: Uuid, sort: string)
    requires NoBar(sort) && !NoBar(primary)
    ensures DecodeCursor(EncodeCursor(primary, id, sort)) == InvalidCursor
  {
    DecodeIsParse(primary, id, sort);
    BarInPrimaryUnparsed(sort, primary, UuidText(id));
  }

  lemma BarInPrimaryUnparsed(sort: string, primary: string, last: string)
    requires NoBar(sort) && !NoBar(primary)
    ensures ParseRaw(Joined(sort, primary, last)) == InvalidCursor
  {
    var cut := Cut(primary).value;
    var longer := cut.1 + "|" + last;
    assert Joined(sort, primary, last) == Joined(sort, cut.0, longer);
    ParseBarFree(sort, cut.0, longer);
    assert longer[|cut.1|] == '|';
    BarIsNoHex(longer);
  }

  /** The raw text of a cursor: the sort name, the primary value and the UUID between bars, the UUID as 36 characters,
      lower-case hexadecimal digits with dashes after the 8th, 12th, 16th and 20th of them. */
  lemma CursorLayout(primary: string, id: Uuid, sort: string)
    ensures EncodeCursor(primary, id, sort) == Base64(Utf8(sort + "|" + primary + "|" + UuidText(id)))
    ensures |UuidText(id)| == 36
    ensures forall i :: 0 <= i < 36 ==>
      UuidText(id)[i] == if i in {8, 13, 18, 23} then '-' else "0123456789abcdef"[id[DigitAt(i)]]
  {
    assert sort + "|" + primary + "|" + UuidText(id) == RawCursor(primary, id, sort);
    UuidLayout(id);
  }

  lemma UuidLayout(id: Uuid)
    ensures |UuidText(id)| == 36
    ensures forall i :: 0 <= i < 36 ==>
      UuidText(id)[i] == if i in {8, 13, 18, 23} then '-' else "0123456789abcdef"[id[DigitAt(i)]]
  {
    HexDigits();
    hide HexDigit;
  }

  lemma HexDigits()
    ensures forall x: Nibble :: HexDigit(x) == "0123456789abcdef"[x]
  {
  }

  // Which of the 32 digits stands at this place of the 36 characters, dashes left out of the count.
  function DigitAt(i: nat): (d: nat)
    requires i < 36
    ensures d < 32
  {
    if i <= 8 then Min(i, 31) else if i <= 13 then i - 1 else if i <= 18 then i - 2 else if i <= 23 then i - 3 else i - 4
  }
}
