// Opaque page cursors: compact JSON in URL-safe base64 (RFC 4648, section 5). The encoder pads
// with "=" (section 3.2); the pattern a cursor must match on the way back has no "=".
module PageCursors {
  import opened Outcomes

  type Byte = b: int | 0 <= b < 256
  type Sextet = n: int | 0 <= n < 64

  const MAX_CURSOR_LENGTH := 2048
  const PAD := '='

  // ----- base64url -----

  function SextetChar(n: Sextet): (c: char)
    ensures SextetValue(c) == Some(n)
  {
    if n < 26 then ('A' as int + n) as char
    else if n < 52 then ('a' as int + (n - 26)) as char
    else if n < 62 then ('0' as int + (n - 52)) as char
    else if n == 62 then '-'
    else '_'
  }

  function SextetValue(c: char): (n: Option<Sextet>)
    ensures n.Some? ==> c != PAD
  {
    if 'A' <= c <= 'Z' then Some(c as int - 'A' as int)
    else if 'a' <= c <= 'z' then Some(c as int - 'a' as int + 26)
    else if '0' <= c <= '9' then Some(c as int - '0' as int + 52)
    else if c == '-' then Some(62)
    else if c == '_' then Some(63)
    else None
  }

  lemma {:induction false} CharOfValue(c: char)
    requires SextetValue(c).Some?
    ensures SextetChar(SextetValue(c).value) == c
  {
  }

  // The URL-safe alphabet by code point: capitals, small letters, digits, hyphen and underscore.
  lemma {:induction false} AlphabetIs(n: Sextet, c: char)
    ensures SextetChar(n) as int ==
            if n < 26 then 65 + n else if n < 52 then 71 + n else if n < 62 then n - 4 else if n == 62 then 45 else 95
    ensures SextetValue(c) == Some(n) <==> SextetChar(n) == c
    ensures SextetValue(c).Some? <==>
      65 <= c as int <= 90 || 97 <= c as int <= 122 || 48 <= c as int <= 57 || c as int in {45, 95}
  {
    if SextetValue(c).Some? {
      CharOfValue(c);
    }
  }

  function EncodeGroup(a: Byte, b: Byte, c: Byte): (s: string)
    ensures |s| == 4
  {
    [SextetChar(a / 4), SextetChar(a % 4 * 16 + b / 16), SextetChar(b % 16 * 4 + c / 64), SextetChar(c % 64)]
  }

  function Encode(bytes: seq<Byte>): string {
    if |bytes| >= 3 then EncodeGroup(bytes[0], bytes[1], bytes[2]) + Encode(bytes[3..])
    else if |bytes| == 2 then EncodeGroup(bytes[0], bytes[1], 0)[..3] + [PAD]
    else if |bytes| == 1 then EncodeGroup(bytes[0], 0, 0)[..2] + [PAD, PAD]
    else []
  }

  // Three bytes and four characters spell one number, in base 256 and in base 64; the last one or
  // two bytes are filled up with zeros, and padding stands for the characters they do not reach.
  lemma {:induction false} EncodeMeaning(a: Byte, b: Byte, c: Byte, rest: seq<Byte>)
    returns (w: Sextet, x: Sextet, y: Sextet, z: Sextet)
    ensures ((w * 64 + x) * 64 + y) * 64 + z == (a * 256 + b) * 256 + c
    ensures Encode([a, b, c] + rest) == [SextetChar(w), SextetChar(x), SextetChar(y), SextetChar(z)] + Encode(rest)
    ensures c == 0 ==> Encode([a, b]) == [SextetChar(w), SextetChar(x), SextetChar(y)] + "="
    ensures b == 0 && c == 0 ==> Encode([a]) == [SextetChar(w), SextetChar(x)] + "=="
    ensures Encode([]) == []
  {
    w, x, y, z := a / 4, a % 4 * 16 + b / 16, b % 16 * 4 + c / 64, c % 64;
    SameNumber(a, b, c);
    assert ([a, b, c] + rest)[3..] == rest;
  }

  lemma {:induction false} SameNumber(a: Byte, b: Byte, c: Byte)
    ensures ((a / 4 * 64 + (a % 4 * 16 + b / 16)) * 64 + (b % 16 * 4 + c / 64)) * 64 + c % 64
         == (a * 256 + b) * 256 + c
  {
    assert a / 4 * 4 + a % 4 == a && b / 16 * 16 + b % 16 == b && c / 64 * 64 + c % 64 == c;
  }

  predicate InAlphabet(s: string) {
    forall i :: 0 <= i < |s| ==> SextetValue(s[i]).Some?
  }

  // Decoding text of the alphabet alone: a length that is not a multiple of four is an error.
  function Decode(s: string): Option<seq<Byte>>
    requires InAlphabet(s)
  {
    if |s| % 4 != 0 then None else Some(DecodeQuads(s))
  }

  function DecodeQuads(s: string): seq<Byte>
    requires InAlphabet(s)
  {
    if |s| < 4 then []
    else DecodeGroup(SextetValue(s[0]).value, SextetValue(s[1]).value,
                     SextetValue(s[2]).value, SextetValue(s[3]).value) + DecodeQuads(s[4..])
  }

  function DecodeGroup(w: Sextet, x: Sextet, y: Sextet, z: Sextet): seq<Byte> {
    [w * 4 + x / 16, x % 16 * 16 + y / 4, y % 4 * 64 + z]
  }

  lemma {:induction false} AlphabetAppend(s: string, t: string)
    ensures InAlphabet(s + t) <==> InAlphabet(s) && InAlphabet(t)
  {
    if InAlphabet(s + t) {
      forall i | 0 <= i < |s| ensures SextetValue(s[i]).Some? {
        assert (s + t)[i] == s[i];
      }
      forall i | 0 <= i < |t| ensures SextetValue(t[i]).Some? {
        assert (s + t)[|s| + i] == t[i];
      }
    }
  }

  lemma {:induction false} GroupInAlphabet(a: Byte, b: Byte, c: Byte)
    ensures InAlphabet(EncodeGroup(a, b, c))
  {
  }

  // Padding appears exactly when the byte count is not a multiple of three, and puts the text
  // outside the alphabet.
  lemma {:induction false} PaddingIff(bytes: seq<Byte>, groups: nat, extra: nat)
    requires |bytes| == 3 * groups + extra && extra < 3
    ensures InAlphabet(Encode(bytes)) <==> extra == 0
    ensures |Encode(bytes)| == 4 * groups + (if extra == 0 then 0 else 4)
  {
    if groups > 0 {
      PaddingIff(bytes[3..], groups - 1, extra);
      GroupInAlphabet(bytes[0], bytes[1], bytes[2]);
      AlphabetAppend(EncodeGroup(bytes[0], bytes[1], bytes[2]), Encode(bytes[3..]));
    } else if extra > 0 {
      var s := Encode(bytes);
      assert s[|s| - 1] == PAD && SextetValue(PAD).None?;
    }
  }

  lemma {:induction false} QuadsAppend(quad: string, rest: string)
    requires |quad| == 4 && InAlphabet(quad) && InAlphabet(rest)
    ensures InAlphabet(quad + rest) && DecodeQuads(quad + rest) == DecodeQuads(quad) + DecodeQuads(rest)
  {
    AlphabetAppend(quad, rest);
    assert (quad + rest)[4..] == rest;
    assert quad[4..] == [];
    assert forall i :: 0 <= i < 4 ==> (quad + rest)[i] == quad[i];
    assert DecodeQuads([]) == [];
  }

  lemma {:induction false} GroupRoundTrip(a: Byte, b: Byte, c: Byte)
    ensures InAlphabet(EncodeGroup(a, b, c)) && DecodeQuads(EncodeGroup(a, b, c)) == [a, b, c]
  {
    GroupInAlphabet(a, b, c);
    QuadDecodes(a / 4, a % 4 * 16 + b / 16, b % 16 * 4 + c / 64, c % 64);
    GroupParts(a, b, c);
  }

  lemma {:induction false} GroupParts(a: Byte, b: Byte, c: Byte)
    ensures DecodeGroup(a / 4, a % 4 * 16 + b / 16, b % 16 * 4 + c / 64, c % 64) == [a, b, c]
  {
    HighLow(a % 4, b / 16);
    HighLow(b % 16, c / 64);
    var x: int, y: int := a % 4 * 16 + b / 16, b % 16 * 4 + c / 64;
    assert x / 16 == a % 4 && x % 16 == b / 16;
    assert y / 4 == b % 16 && y % 4 == c / 64;
    assert a / 4 * 4 + a % 4 == a && b / 16 * 16 + b % 16 == b && c / 64 * 64 + c % 64 == c;
  }

  lemma {:induction false} QuadDecodes(w: Sextet, x: Sextet, y: Sextet, z: Sextet)
    ensures DecodeQuads([SextetChar(w), SextetChar(x), SextetChar(y), SextetChar(z)]) == DecodeGroup(w, x, y, z)
  {
    assert [SextetChar(w), SextetChar(x), SextetChar(y), SextetChar(z)][4..] == [];
  }

  lemma {:induction false} FirstTriple(bytes: seq<Byte>)
    requires |bytes| >= 3
    ensures bytes == [bytes[0], bytes[1], bytes[2]] + bytes[3..]
    ensures Encode(bytes) == EncodeGroup(bytes[0], bytes[1], bytes[2]) + Encode(bytes[3..])
  {
  }

  lemma {:induction false} DecodeEncode(bytes: seq<Byte>, groups: nat)
    requires |bytes| == 3 * groups
    ensures InAlphabet(Encode(bytes)) && |Encode(bytes)| == 4 * groups
    ensures DecodeQuads(Encode(bytes)) == bytes
  {
    if groups > 0 {
      var group, rest := EncodeGroup(bytes[0], bytes[1], bytes[2]), Encode(bytes[3..]);
      DecodeEncode(bytes[3..], groups - 1);
      GroupRoundTrip(bytes[0], bytes[1], bytes[2]);
      QuadsAppend(group, rest);
      FirstTriple(bytes);
    }
  }

  lemma {:induction false} QuadRoundTrip(w: Sextet, x: Sextet, y: Sextet, z: Sextet)
    ensures var g := DecodeGroup(w, x, y, z);
            EncodeGroup(g[0], g[1], g[2]) == [SextetChar(w), SextetChar(x), SextetChar(y), SextetChar(z)]
  {
    HighLow(w, x / 16);
    HighLow(x % 16, y / 4);
    HighLow(y % 4, z);
    var g := DecodeGroup(w, x, y, z);
    assert g[0] / 4 == w && g[0] % 4 == x / 16;
    assert g[1] / 16 == x % 16 && g[1] % 16 == y / 4;
    assert g[2] / 64 == y % 4 && g[2] % 64 == z;
    assert g[0] % 4 * 16 + g[1] / 16 == x && g[1] % 16 * 4 + g[2] / 64 == y;
  }

  lemma {:induction false} HighLow(high: int, low: int)
    ensures 0 <= low < 4 ==> (high * 4 + low) / 4 == high && (high * 4 + low) % 4 == low
    ensures 0 <= low < 16 ==> (high * 16 + low) / 16 == high && (high * 16 + low) % 16 == low
    ensures 0 <= low < 64 ==> (high * 64 + low) / 64 == high && (high * 64 + low) % 64 == low
  {
  }

  lemma {:induction false} QuadBytes(quad: string) returns (a: Byte, b: Byte, c: Byte)
    requires |quad| == 4 && InAlphabet(quad)
    ensures DecodeQuads(quad) == [a, b, c] && EncodeGroup(a, b, c) == quad
  {
    var w, x, y, z := SextetValue(quad[0]).value, SextetValue(quad[1]).value,
                      SextetValue(quad[2]).value, SextetValue(quad[3]).value;
    QuadRoundTrip(w, x, y, z);
    CharOfValue(quad[0]);
    CharOfValue(quad[1]);
    CharOfValue(quad[2]);
    CharOfValue(quad[3]);
    var g := DecodeGroup(w, x, y, z);
    assert quad[4..] == [] && DecodeQuads(quad) == g;
    a, b, c := g[0], g[1], g[2];
  }

  lemma {:induction false} TripleAppend(triple: seq<Byte>, rest: seq<Byte>)
    requires |triple| == 3
    ensures Encode(triple + rest) == EncodeGroup(triple[0], triple[1], triple[2]) + Encode(rest)
  {
    assert (triple + rest)[3..] == rest;
  }

  // Text of the alphabet that decodes is the encoding of what it decodes to.
  lemma {:induction false} EncodeDecode(s: string, quads: nat)
    requires InAlphabet(s) && |s| == 4 * quads
    ensures Encode(DecodeQuads(s)) == s
  {
    if quads > 0 {
      var quad, rest := s[..4], s[4..];
      assert s == quad + rest;
      EncodeDecode(rest, quads - 1);
      var a, b, c := QuadBytes(quad);
      QuadsAppend(quad, rest);
      TripleAppend([a, b, c], DecodeQuads(rest));
    }
  }

  // ----- the JSON payloads -----

  function HexDigit(n: int): char
    requires 0 <= n < 16
  {
    if n < 10 then ('0' as int + n) as char else ('a' as int + (n - 10)) as char
  }

  function UnicodeEscape(n: int): string
    requires 0 <= n < 0x10000
  {
    ['\\', 'u', HexDigit(n / 0x1000), HexDigit(n / 0x100 % 16), HexDigit(n / 16 % 16), HexDigit(n % 16)]
  }

  // One character inside an ASCII-only JSON string, with a surrogate pair above U+FFFF.
  function JsonChar(c: char): string {
    if c == '"' then "\\\""
    else if c == '\\' then "\\\\"
    else if c == '\n' then "\\n"
    else if c == '\r' then "\\r"
    else if c == '\t' then "\\t"
    else if c as int == 8 then "\\b"
    else if c as int == 12 then "\\f"
    else if ' ' <= c <= '~' then [c]
    else if c as int < 0x10000 then UnicodeEscape(c as int)
    else
      var n := c as int - 0x10000;
      assert n / 0x400 < 0x400;
      UnicodeEscape(0xD800 + n / 0x400) + UnicodeEscape(0xDC00 + n % 0x400)
  }

  function JsonText(s: string): (t: string)
    ensures forall i :: 0 <= i < |t| ==> t[i] as int < 128
  {
    if s == [] then [] else JsonChar(s[0]) + JsonText(s[1..])
  }

  function Ascii(s: string): (bytes: seq<Byte>)
    requires forall i :: 0 <= i < |s| ==> s[i] as int < 128
    ensures |bytes| == |s|
  {
    seq(|s|, i requires 0 <= i < |s| => s[i] as int)
  }

  function MatrixPayload(itemId: string): seq<Byte> {
    Ascii("{\"ai\":\"" + JsonText(itemId) + "\",\"v\":1}")
  }

  function RunPayload(runId: string, requestedAt: string): seq<Byte> {
    Ascii("{\"id\":\"" + JsonText(runId) + "\",\"ra\":\"" + JsonText(requestedAt) + "\",\"v\":1}")
  }

  // Texts are joined by joining what their characters become: printable ASCII stays, apart from
  // the quote and the backslash, which take a backslash, as five control characters do with a
  // letter; everything else becomes one escape, or two for a surrogate pair.
  lemma {:induction false} JsonTextMeaning(a: string, b: string, c: char)
    ensures JsonText(a + b) == JsonText(a) + JsonText(b)
    ensures JsonText([]) == [] && JsonText([c]) == JsonChar(c)
    ensures 32 <= c as int <= 126 && c != '"' && c != '\\' ==> JsonChar(c) == [c]
    ensures JsonChar('"') == "\\\"" && JsonChar('\\') == "\\\\" && JsonChar('\n') == "\\n"
    ensures JsonChar('\r') == "\\r" && JsonChar('\t') == "\\t"
    ensures JsonChar(8 as char) == "\\b" && JsonChar(12 as char) == "\\f"
    ensures (c as int < 32 && c as int !in {8, 9, 10, 12, 13}) || 127 <= c as int < 0x10000 ==>
              JsonChar(c) == UnicodeEscape(c as int)
    ensures c as int >= 0x10000 ==>
              exists high, low :: 0xD800 <= high < 0xDC00 <= low < 0xE000
                && JsonChar(c) == UnicodeEscape(high) + UnicodeEscape(low)
                && c as int == 0x10000 + (high - 0xD800) * 0x400 + (low - 0xDC00)
  {
    JsonAppend(a, b);
    JsonOne(c);
    if c as int >= 0x10000 {
      var n := c as int - 0x10000;
      assert JsonChar(c) == UnicodeEscape(0xD800 + n / 0x400) + UnicodeEscape(0xDC00 + n % 0x400);
    }
  }

  // A backslash, a u and four lower-case hex digits that spell the number.
  lemma {:induction false} UnicodeEscapeMeaning(n: int) returns (a: nat, b: nat, c: nat, d: nat)
    requires 0 <= n < 0x10000
    ensures a < 16 && b < 16 && c < 16 && d < 16 && n == ((a * 16 + b) * 16 + c) * 16 + d
    ensures UnicodeEscape(n) == "\\u" + [HexDigit(a), HexDigit(b), HexDigit(c), HexDigit(d)]
  {
    hide HexDigit;
    a, b, c, d := n / 0x1000, n / 0x100 % 16, n / 16 % 16, n % 16;
    HexParts(n);
  }

  lemma {:induction false} HexParts(n: nat)
    ensures n == ((n / 0x1000 * 16 + n / 0x100 % 16) * 16 + n / 16 % 16) * 16 + n % 16
  {
    Sixteenths(n, n / 16);
    Sixteenths(n / 16, n / 0x100);
    Sixteenths(n / 0x100, n / 0x1000);
  }

  lemma {:induction false} Sixteenths(n: nat, q: nat)
    requires q == n / 16
    ensures n == q * 16 + n % 16
  {
  }

  lemma {:induction false} HexDigitIs(n: int)
    requires 0 <= n < 16
    ensures HexDigit(n) == "0123456789abcdef"[n]
  {
  }

  lemma {:induction false} JsonAppend(a: string, b: string)
    ensures JsonText(a + b) == JsonText(a) + JsonText(b)
  {
    if a == [] {
      NothingBefore(b);
    } else {
      JsonAppend(a[1..], b);
      JsonAppendStep(a, b);
    }
  }

  lemma {:induction false} NothingBefore(b: string)
    ensures [] + b == b && JsonText([] + b) == JsonText([]) + JsonText(b)
  {
    assert [] + b == b;
  }

  lemma {:induction false} JsonAppendStep(a: string, b: string)
    requires a != [] && JsonText(a[1..] + b) == JsonText(a[1..]) + JsonText(b)
    ensures JsonText(a + b) == JsonText(a) + JsonText(b)
  {
    hide JsonText, JsonChar;
    HeadOfSum(a, b);
    JsonStep(a);
    JsonStep(a + b);
    Regroup(JsonChar(a[0]), JsonText(a[1..]), JsonText(b));
  }

  lemma {:induction false} HeadOfSum(a: string, b: string)
    requires a != []
    ensures a + b != [] && (a + b)[0] == a[0] && (a + b)[1..] == a[1..] + b
  {
  }

  lemma {:induction false} JsonStep(s: string)
    requires s != []
    ensures JsonText(s) == JsonChar(s[0]) + JsonText(s[1..])
  {
  }

  lemma {:induction false} Regroup(a: string, b: string, c: string)
    ensures a + b + c == a + (b + c)
  {
  }

  lemma {:induction false} JsonOne(c: char)
    ensures JsonText([c]) == JsonChar(c)
  {
    hide JsonChar;
    assert [c][1..] == [];
  }

  // The payloads of ids and timestamps that need no escape.
  lemma {:induction false} PayloadText(itemId: string, runId: string, requestedAt: string)
    requires forall i :: 0 <= i < |itemId| ==> IsItemChar(itemId[i]) || itemId[i] == ':'
    requires forall i :: 0 <= i < |runId| ==> IsItemChar(runId[i]) || runId[i] == ':'
    requires forall i :: 0 <= i < |requestedAt| ==> IsItemChar(requestedAt[i]) || requestedAt[i] == ':'
    ensures SpellsText(MatrixPayload(itemId), "{\"ai\":\"" + itemId + "\",\"v\":1}")
    ensures SpellsText(RunPayload(runId, requestedAt),
                       "{\"id\":\"" + runId + "\",\"ra\":\"" + requestedAt + "\",\"v\":1}")
  {
    PlainText(itemId);
    PlainText(runId);
    PlainText(requestedAt);
  }

  ghost predicate SpellsText(bytes: seq<Byte>, text: string) {
    |bytes| == |text| && forall i :: 0 <= i < |text| ==> bytes[i] == text[i] as int
  }

  // ----- the two cursors -----

  function EncodeCursor(payload: seq<Byte>): Option<string> {
    var encoded := Encode(payload);
    if |encoded| > MAX_CURSOR_LENGTH then None else Some(encoded)
  }

  // The checks before the JSON is read. None is the invalid-cursor error.
  function CursorBytes(cursor: string): Option<seq<Byte>> {
    if cursor == [] || |cursor| > MAX_CURSOR_LENGTH || !InAlphabet(cursor) then None
    else Decode(cursor)
  }

  // A parsed matrix payload: its version and item id where they are present with the right type.
  datatype MatrixDocument = MatrixDocument(version: Option<int>, itemId: Option<string>)

  // `loads` is the JSON parser; None is a decoding or syntax error.
  function DecodeMatrixCursor(loads: seq<Byte> -> Option<MatrixDocument>, cursor: string): Option<string> {
    var bytes := CursorBytes(cursor);
    if bytes.None? then None
    else
      var document := loads(bytes.value);
      if document.None? || document.value.version != Some(1) then None else document.value.itemId
  }

  // A parsed run payload, and its decoding; `keyOf` reads the timestamp and the id. None stands
  // for every error.
  datatype RunDocument = RunDocument(version: Option<int>, requestedAt: Option<string>, runId: Option<string>)

  function DecodeRunCursor<K>(loads: seq<Byte> -> Option<RunDocument>, keyOf: (string, string) -> Option<K>,
                              cursor: string): Option<K>
  {
    var bytes := CursorBytes(cursor);
    if bytes.None? then None
    else
      var document := loads(bytes.value);
      if document.None? || document.value.version != Some(1) then None
      else if document.value.requestedAt.None? || document.value.runId.None? then None
      else keyOf(document.value.requestedAt.value, document.value.runId.value)
  }

  // A cursor is printed when it has at most 2048 characters; one that is read back has one to 2048
  // characters of the alphabet, in quads, and is the encoding of the bytes it stands for.
  lemma {:induction false} CursorIff(payload: seq<Byte>, cursor: string, bytes: seq<Byte>)
    ensures EncodeCursor(payload) == Some(cursor) <==> Encode(payload) == cursor && |cursor| <= 2048
    ensures CursorBytes(cursor) == Some(bytes) <==>
      && 1 <= |cursor| <= 2048 && |cursor| % 4 == 0 && |bytes| % 3 == 0
      && (forall i :: 0 <= i < |cursor| ==> SextetValue(cursor[i]).Some?) && Encode(bytes) == cursor
  {
    if CursorBytes(cursor) == Some(bytes) {
      EncodeDecode(cursor, |cursor| / 4);
      QuadsGiveTriples(cursor, |cursor| / 4);
      ThreeDivides(|cursor| / 4);
    }
    if |bytes| % 3 == 0 && Encode(bytes) == cursor {
      DecodeEncode(bytes, |bytes| / 3);
    }
  }

  lemma {:induction false} QuadsGiveTriples(s: string, quads: nat)
    requires InAlphabet(s) && |s| == 4 * quads
    ensures |DecodeQuads(s)| == 3 * quads
  {
    if quads > 0 {
      hide SextetValue;
      QuadsGiveTriples(s[4..], quads - 1);
    }
  }

  lemma {:induction false} ThreeDivides(n: nat)
    ensures 3 * n % 3 == 0
  {
  }

  // A matrix cursor yields an item id exactly when its bytes parse to version 1 with that id, and a
  // run cursor yields the key of its two texts exactly when they parse to version 1 with both.
  lemma {:induction false} CursorDocuments<K>(loadsItem: seq<Byte> -> Option<MatrixDocument>,
                                              loadsRun: seq<Byte> -> Option<RunDocument>,
                                              keyOf: (string, string) -> Option<K>, cursor: string, id: string, key: K)
    ensures DecodeMatrixCursor(loadsItem, cursor) == Some(id) <==>
      CursorBytes(cursor).Some? && loadsItem(CursorBytes(cursor).value) == Some(MatrixDocument(Some(1), Some(id)))
    ensures DecodeRunCursor(loadsRun, keyOf, cursor) == Some(key) <==>
      && CursorBytes(cursor).Some?
      && exists ra, runId :: loadsRun(CursorBytes(cursor).value) == Some(RunDocument(Some(1), Some(ra), Some(runId)))
                             && keyOf(ra, runId) == Some(key)
  {
    hide CursorBytes;
  }

  lemma {:induction false} CursorReadable(payload: seq<Byte>, groups: nat, extra: nat)
    requires |payload| == 3 * groups + extra && extra < 3
    requires EncodeCursor(payload).Some? && payload != []
    ensures CursorBytes(EncodeCursor(payload).value) == if extra == 0 then Some(payload) else None
  {
    var cursor := Encode(payload);
    PaddingIff(payload, groups, extra);
    assert cursor != [];
    if extra == 0 {
      DecodeEncode(payload, groups);
      WholeQuads(cursor, groups);
      assert CursorBytes(cursor) == Decode(cursor);
    } else {
      assert CursorBytes(cursor) == None;
    }
  }

  lemma {:induction false} WholeQuads(s: string, quads: nat)
    requires InAlphabet(s) && |s| == 4 * quads
    ensures Decode(s) == Some(DecodeQuads(s))
  {
    FourDivides(quads);
    assert |s| % 4 == 0;
  }

  lemma {:induction false} FourDivides(n: nat)
    ensures 4 * n % 4 == 0
  {
  }

  // A payload's cursor is readable exactly when its length is a multiple of three.
  lemma {:induction false} CursorReadableIff(payload: seq<Byte>)
    requires EncodeCursor(payload).Some? && payload != []
    ensures CursorBytes(EncodeCursor(payload).value) == if |payload| % 3 == 0 then Some(payload) else None
  {
    CursorReadable(payload, |payload| / 3, |payload| % 3);
  }

  lemma {:induction false} ShortCursorFits(payload: seq<Byte>)
    requires |payload| <= 1500
    ensures EncodeCursor(payload).Some?
  {
    PaddingIff(payload, |payload| / 3, |payload| % 3);
  }

  // The matrix cursor gives its item id back when the payload length is a multiple of three, and
  // is otherwise rejected.
  lemma {:induction false} MatrixCursorRoundTrip(loads: seq<Byte> -> Option<MatrixDocument>, itemId: string)
    requires loads(MatrixPayload(itemId)) == Some(MatrixDocument(Some(1), Some(itemId)))
    requires EncodeCursor(MatrixPayload(itemId)).Some?
    ensures DecodeMatrixCursor(loads, EncodeCursor(MatrixPayload(itemId)).value)
         == if |MatrixPayload(itemId)| % 3 == 0 then Some(itemId) else None
  {
    CursorReadableIff(MatrixPayload(itemId));
  }

  // The characters of ^[A-Za-z0-9][A-Za-z0-9()._-]{1,127}$ need no escape.
  predicate IsItemChar(c: char) {
    'A' <= c <= 'Z' || 'a' <= c <= 'z' || '0' <= c <= '9' || c in "()._-"
  }

  lemma {:induction false} ItemCharIs(c: char)
    ensures IsItemChar(c) <==>
      || 65 <= c as int <= 90 || 97 <= c as int <= 122 || 48 <= c as int <= 57
      || c as int in {40, 41, 45, 46, 95}
  {
  }

  lemma {:induction false} PlainText(s: string)
    requires forall i :: 0 <= i < |s| ==> IsItemChar(s[i]) || s[i] == ':'
    ensures JsonText(s) == s
  {
    if s != [] {
      PlainText(s[1..]);
      assert [s[0]] + s[1..] == s;
    }
  }

  lemma {:induction false} MatrixPayloadLength(itemId: string)
    requires forall i :: 0 <= i < |itemId| ==> IsItemChar(itemId[i])
    ensures |MatrixPayload(itemId)| == |itemId| + 15
  {
    PlainText(itemId);
  }

  // For a stored item id: pages after the first can be read only when the id's length is a
  // multiple of three.
  lemma {:induction false} ItemIdLengthDecides(loads: seq<Byte> -> Option<MatrixDocument>, itemId: string)
    requires |itemId| <= 128 && forall i :: 0 <= i < |itemId| ==> IsItemChar(itemId[i])
    requires loads(MatrixPayload(itemId)) == Some(MatrixDocument(Some(1), Some(itemId)))
    ensures EncodeCursor(MatrixPayload(itemId)).Some?
    ensures DecodeMatrixCursor(loads, EncodeCursor(MatrixPayload(itemId)).value)
         == if |itemId| % 3 == 0 then Some(itemId) else None
  {
    MatrixPayloadLength(itemId);
    ShortCursorFits(MatrixPayload(itemId));
    CursorReadable(MatrixPayload(itemId), |itemId| / 3 + 5, |itemId| % 3);
  }

  // A UUID in lower case and a timestamp with microseconds and "Z".
  predicate IsRunText(runId: string, requestedAt: string) {
    && |runId| == 36 && (forall i :: 0 <= i < 36 ==> IsItemChar(runId[i]))
    && |requestedAt| == 27 && (forall i :: 0 <= i < 27 ==> IsItemChar(requestedAt[i]) || requestedAt[i] == ':')
  }

  // The five hyphenated groups and the seven fields of the two formats have that form.
  lemma {:induction false} FormatsAreRunText(runId: string, requestedAt: string)
    requires |runId| == 36 && |requestedAt| == 27
    requires forall i :: 0 <= i < 36 ==>
      if i in {8, 13, 18, 23} then runId[i] == '-' else runId[i] in "0123456789abcdef"
    requires forall i :: 0 <= i < 27 ==>
      match i
      case 4 => requestedAt[i] == '-'
      case 7 => requestedAt[i] == '-'
      case 10 => requestedAt[i] == 'T'
      case 13 => requestedAt[i] == ':'
      case 16 => requestedAt[i] == ':'
      case 19 => requestedAt[i] == '.'
      case 26 => requestedAt[i] == 'Z'
      case _ => requestedAt[i] in "0123456789"
    ensures IsRunText(runId, requestedAt)
  {
  }

  // A run cursor always carries a 36-character UUID and a 27-character timestamp, 86 bytes in all,
  // so it is always padded and never accepted back: no run listing can reach its second page.
  lemma {:induction false} RunCursorNeverReadable(runId: string, requestedAt: string)
    requires IsRunText(runId, requestedAt)
    ensures EncodeCursor(RunPayload(runId, requestedAt)).Some?
    ensures CursorBytes(EncodeCursor(RunPayload(runId, requestedAt)).value) == None
  {
    PlainText(runId);
    PlainText(requestedAt);
    assert |RunPayload(runId, requestedAt)| == 86;
    ShortCursorFits(RunPayload(runId, requestedAt));
    CursorReadableIff(RunPayload(runId, requestedAt));
  }
}
