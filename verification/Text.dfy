// Splitting, decimal numerals and code point order on strings.
module Text {
  // ----- str.split with a one-character separator -----

  function Split(s: string, sep: char): (parts: seq<string>)
    ensures parts != []
  {
    if s == [] then [[]]
    else
      var rest := Split(s[1..], sep);
      if s[0] == sep then [[]] + rest else [[s[0]] + rest[0]] + rest[1..]
  }

  // What Split does with one more character in front.
  function Push(c: char, parts: seq<string>, sep: char): seq<string>
    requires parts != []
  {
    if c == sep then [[]] + parts else [[c] + parts[0]] + parts[1..]
  }

  lemma {:induction false} SplitCons(c: char, s: string, sep: char)
    ensures Split([c] + s, sep) == Push(c, Split(s, sep), sep)
  {
    assert ([c] + s)[1..] == s;
  }

  lemma {:induction false} PushAppend(c: char, a: seq<string>, b: seq<string>, sep: char)
    requires a != []
    ensures Push(c, a + b, sep) == Push(c, a, sep) + b
  {
    assert (a + b)[1..] == a[1..] + b;
  }

  lemma {:induction false} SplitAppend(a: string, b: string, sep: char)
    ensures Split(a + [sep] + b, sep) == Split(a, sep) + Split(b, sep)
  {
    if a == [] {
      assert [] + [sep] + b == [sep] + b;
      SplitCons(sep, b, sep);
    } else {
      var tail := a[1..];
      SplitAppend(tail, b, sep);
      SplitCons(a[0], tail + [sep] + b, sep);
      SplitCons(a[0], tail, sep);
      assert [a[0]] + tail == a;
      assert [a[0]] + (tail + [sep] + b) == a + [sep] + b;
      PushAppend(a[0], Split(tail, sep), Split(b, sep), sep);
    }
  }

  lemma {:induction false} SplitWhole(s: string, sep: char)
    requires sep !in s
    ensures Split(s, sep) == [s]
  {
    if s != [] {
      SplitWhole(s[1..], sep);
      assert [s[0]] + s[1..] == s;
    }
  }

  lemma {:induction false} SplitParts(s: string, sep: char)
    ensures forall p :: p in Split(s, sep) ==> sep !in p
  {
    if s != [] {
      SplitParts(s[1..], sep);
    }
  }

  function Join(parts: seq<string>, sep: char): string
    requires parts != []
  {
    if |parts| == 1 then parts[0] else parts[0] + [sep] + Join(parts[1..], sep)
  }

  lemma {:induction false} JoinSplit(s: string, sep: char)
    ensures Join(Split(s, sep), sep) == s
  {
    if s != [] {
      JoinSplit(s[1..], sep);
      var rest := Split(s[1..], sep);
      if s[0] == sep {
        assert Split(s, sep)[1..] == rest;
      } else {
        assert Split(s, sep)[1..] == rest[1..];
      }
    }
  }

  // ----- whitespace -----

  // What str.strip removes.
  predicate IsSpace(c: char) {
    var n := c as int;
    || 9 <= n <= 13 || 28 <= n <= 32 || n == 0x85 || n == 0xA0 || n == 0x1680
    || 0x2000 <= n <= 0x200A || n == 0x2028 || n == 0x2029 || n == 0x202F || n == 0x205F || n == 0x3000
  }

  function StripLeft(s: string): (t: string)
    ensures t == [] || !IsSpace(t[0])
    ensures |t| <= |s| && t == s[|s| - |t|..]
  {
    if s == [] || !IsSpace(s[0]) then s else StripLeft(s[1..])
  }

  function StripRight(s: string): (t: string)
    ensures t == [] || !IsSpace(t[|t| - 1])
    ensures t <= s
  {
    if s == [] || !IsSpace(s[|s| - 1]) then s else StripRight(s[..|s| - 1])
  }

  function Strip(s: string): string {
    StripRight(StripLeft(s))
  }

  // The characters of str.isspace, by code point.
  lemma {:induction false} SpaceIs(c: char)
    ensures IsSpace(c) <==>
      c as int in {0x09, 0x0A, 0x0B, 0x0C, 0x0D, 0x1C, 0x1D, 0x1E, 0x1F, 0x20, 0x85, 0xA0, 0x1680, 0x2000, 0x2001,
                   0x2002, 0x2003, 0x2004, 0x2005, 0x2006, 0x2007, 0x2008, 0x2009, 0x200A, 0x2028, 0x2029, 0x202F,
                   0x205F, 0x3000}
  {
  }

  // What is stripped is whitespace at either end, and all of it.
  lemma {:induction false} StripMeaning(s: string) returns (left: string, right: string)
    ensures s == left + Strip(s) + right
    ensures (forall c :: c in left ==> IsSpace(c)) && (forall c :: c in right ==> IsSpace(c))
    ensures Strip(s) != [] ==> !IsSpace(Strip(s)[0]) && !IsSpace(Strip(s)[|Strip(s)| - 1])
  {
    hide IsSpace, StripLeft, StripRight;
    var rest := StripLeft(s);
    left := s[..|s| - |rest|];
    right := rest[|Strip(s)|..];
    StripLeftDrops(s);
    StripRightDrops(rest);
    ThreeParts(s, |s| - |rest|, |Strip(s)|);
    StripEnds(s);
  }

  lemma {:induction false} ThreeParts(s: string, a: nat, n: nat)
    requires a + n <= |s|
    ensures s == s[..a] + s[a..][..n] + s[a..][n..]
  {
  }

  lemma {:induction false} StripEnds(s: string)
    ensures Strip(s) != [] ==> !IsSpace(Strip(s)[0]) && !IsSpace(Strip(s)[|Strip(s)| - 1])
  {
    hide IsSpace, StripLeft, StripRight;
    var rest := StripLeft(s);
    assert Strip(s) == StripRight(rest) <= rest;
  }

  lemma {:induction false} StripLeftDrops(s: string)
    ensures forall c :: c in s[..|s| - |StripLeft(s)|] ==> IsSpace(c)
  {
    if s != [] && IsSpace(s[0]) {
      StripLeftDrops(s[1..]);
      var n := |s| - |StripLeft(s)|;
      assert s[..n] == [s[0]] + s[1..][..n - 1];
    }
  }

  lemma {:induction false} StripRightDrops(s: string)
    ensures forall c :: c in s[|StripRight(s)|..] ==> IsSpace(c)
  {
    if s != [] && IsSpace(s[|s| - 1]) {
      var front := s[..|s| - 1];
      StripRightDrops(front);
      assert s[|StripRight(s)|..] == front[|StripRight(front)|..] + [s[|s| - 1]];
    }
  }

  lemma {:induction false} StripTight(s: string)
    requires s != [] && !IsSpace(s[0]) && !IsSpace(s[|s| - 1])
    ensures Strip(s) == s
  {
  }

  // ----- ASCII case, digests and UUIDs -----

  function LowerChar(c: char): char {
    if 'A' <= c <= 'Z' then (c as int - 'A' as int + 'a' as int) as char else c
  }

  function Lower(s: string): (t: string)
    ensures |t| == |s|
    ensures forall i :: 0 <= i < |s| ==> t[i] == LowerChar(s[i])
  {
    if s == [] then [] else [LowerChar(s[0])] + Lower(s[1..])
  }

  // The capitals A to Z, code points 65 to 90, become the letters 32 further on; nothing else changes.
  lemma {:induction false} LowerIs(s: string, i: nat)
    requires i < |s|
    ensures 65 <= s[i] as int <= 90 ==> Lower(s)[i] as int == s[i] as int + 32
    ensures s[i] as int < 65 || s[i] as int > 90 ==> Lower(s)[i] == s[i]
  {
  }

  lemma {:induction false} LowerTwice(s: string)
    ensures Lower(Lower(s)) == Lower(s)
  {
    assert forall i :: 0 <= i < |s| ==> Lower(Lower(s))[i] == Lower(s)[i];
  }

  predicate IsHexDigit(c: char) {
    'a' <= c <= 'f' || '0' <= c <= '9'
  }

  // 64 lower-case hex digits.
  predicate IsSha256(s: string) {
    |s| == 64 && forall i :: 0 <= i < |s| ==> IsHexDigit(s[i])
  }

  lemma {:induction false} HexIs(s: string)
    ensures IsSha256(s) <==> |s| == 64 && forall c :: c in s ==> c in "0123456789abcdef"
  {
    HexDigits();
    if IsSha256(s) {
      assert forall c :: c in s ==> IsHexDigit(c);
    } else if |s| == 64 {
      var i :| 0 <= i < 64 && !IsHexDigit(s[i]);
      assert s[i] in s;
    }
  }

  lemma {:induction false} HexDigits()
    ensures forall c :: IsHexDigit(c) <==> c in "0123456789abcdef"
  {
    var digits := "0123456789abcdef";
    forall c: char | IsHexDigit(c) ensures c in digits {
      if c <= '9' {
        assert digits[c as int - '0' as int] == c;
      } else {
        assert digits[c as int - 'a' as int + 10] == c;
      }
    }
  }

  // The lower-case version-4 UUID pattern.
  predicate IsUuid4(s: string) {
    && |s| == 36
    && s[8] == s[13] == s[18] == s[23] == '-'
    && s[14] == '4'
    && s[19] in "89ab"
    && forall i :: 0 <= i < 36 && i != 8 && i != 13 && i != 18 && i != 23 ==> IsHexDigit(s[i])
  }

  // Five groups of lower-case hex digits, of lengths 8, 4, 4, 4 and 12, joined by hyphens; the
  // third begins with the version 4 and the fourth with 8, 9, a or b.
  ghost predicate UuidOf(s: string, a: string, b: string, c: string, d: string, e: string) {
    && s == a + "-" + b + "-" + c + "-" + d + "-" + e
    && |a| == 8 && |b| == 4 && |c| == 4 && |d| == 4 && |e| == 12
    && (forall x :: x in a + b + c + d + e ==> x in "0123456789abcdef")
    && c[0] == '4' && d[0] in "89ab"
  }

  lemma {:induction false} Uuid4Is(s: string)
    ensures IsUuid4(s) <==> exists a, b, c, d, e :: UuidOf(s, a, b, c, d, e)
  {
    hide UuidOf;
    if IsUuid4(s) {
      UuidSplit(s);
      assert UuidOf(s, s[..8], s[9..13], s[14..18], s[19..23], s[24..]);
    }
    forall a, b, c, d, e | UuidOf(s, a, b, c, d, e) ensures IsUuid4(s) {
      UuidJoined(s, a, b, c, d, e);
    }
  }

  lemma {:induction false} UuidSplit(s: string)
    requires IsUuid4(s)
    ensures UuidOf(s, s[..8], s[9..13], s[14..18], s[19..23], s[24..])
  {
    var all := s[..8] + s[9..13] + s[14..18] + s[19..23] + s[24..];
    forall x | x in all ensures x in "0123456789abcdef" {
      hide IsHexDigit;
      HexDigits();
      assert IsHexDigit(x);
    }
  }

  lemma {:induction false} UuidJoined(s: string, a: string, b: string, c: string, d: string, e: string)
    requires UuidOf(s, a, b, c, d, e)
    ensures IsUuid4(s)
  {
    hide IsHexDigit;
    HexDigits();
    var all := a + b + c + d + e;
    assert forall i :: 0 <= i < 8 ==> s[i] == all[i];
    assert forall i :: 8 < i < 13 ==> s[i] == all[i - 1];
    assert forall i :: 13 < i < 18 ==> s[i] == all[i - 2];
    assert forall i :: 18 < i < 23 ==> s[i] == all[i - 3];
    assert forall i :: 23 < i < 36 ==> s[i] == all[i - 4];
    assert s[14] == c[0] && s[19] == d[0];
  }

  // ----- decimal numerals -----

  predicate IsDigit(c: char) {
    '0' <= c <= '9'
  }

  predicate AllDigits(s: string) {
    forall i :: 0 <= i < |s| ==> IsDigit(s[i])
  }

  function DigitValue(c: char): (n: nat)
    requires IsDigit(c)
    ensures n < 10
  {
    c as int - '0' as int
  }

  function DigitChar(n: nat): (c: char)
    requires n < 10
    ensures IsDigit(c) && DigitValue(c) == n
  {
    ('0' as int + n) as char
  }

  function Decimal(n: nat): (s: string)
    ensures s != [] && AllDigits(s)
  {
    if n < 10 then [DigitChar(n)] else Decimal(n / 10) + [DigitChar(n % 10)]
  }

  function ParseNat(s: string): nat
    requires AllDigits(s)
  {
    if s == [] then 0 else ParseNat(s[..|s| - 1]) * 10 + DigitValue(s[|s| - 1])
  }

  predicate NoLeadingZero(s: string) {
    |s| > 1 ==> s[0] != '0'
  }

  lemma {:induction false} ParseDecimal(n: nat)
    ensures ParseNat(Decimal(n)) == n && NoLeadingZero(Decimal(n))
    ensures n > 0 ==> Decimal(n)[0] != '0'
  {
    if n >= 10 {
      ParseDecimal(n / 10);
      assert Decimal(n)[..|Decimal(n)| - 1] == Decimal(n / 10);
    }
  }

  lemma {:induction false} DecimalStep(m: nat, d: nat)
    requires m > 0 && d < 10
    ensures Decimal(m * 10 + d) == Decimal(m) + [DigitChar(d)]
  {
    assert (m * 10 + d) / 10 == m && (m * 10 + d) % 10 == d;
  }

  lemma {:induction false} DecimalParse(s: string)
    requires s != [] && AllDigits(s) && NoLeadingZero(s)
    ensures Decimal(ParseNat(s)) == s
    ensures s[0] != '0' ==> ParseNat(s) > 0
  {
    var last := |s| - 1;
    if last > 0 {
      var front := s[..last];
      assert front[0] == s[0];
      DecimalParse(front);
      DecimalStep(ParseNat(front), DigitValue(s[last]));
      assert s == front + [s[last]];
    } else {
      assert s[..0] == [];
      assert DigitChar(DigitValue(s[0])) == s[0];
    }
  }

  // Base ten, with the usual digits.
  lemma {:induction false} DecimalIs(n: nat)
    ensures n < 10 ==> Decimal(n) == ["0123456789"[n]]
    ensures n >= 10 ==> Decimal(n) == Decimal(n / 10) + ["0123456789"[n % 10]]
  {
  }

  lemma {:induction false} DecimalInjective(m: nat, n: nat)
    requires Decimal(m) == Decimal(n)
    ensures m == n
  {
    ParseDecimal(m);
    ParseDecimal(n);
  }

  // ----- code point order -----

  predicate StrLess(a: string, b: string) {
    b != [] && (a == [] || a[0] < b[0] || (a[0] == b[0] && StrLess(a[1..], b[1..])))
  }

  // Up to k the two agree, and there a ends or has the smaller code point.
  ghost predicate LessAt(a: string, b: string, k: nat) {
    k <= |a| && k < |b| && a[..k] == b[..k] && (k == |a| || a[k] < b[k])
  }

  // The first difference decides, by code point, and a proper prefix comes first.
  lemma {:induction false} StrLessMeaning(a: string, b: string)
    ensures StrLess(a, b) <==> exists k :: LessAt(a, b, k)
  {
    hide LessAt;
    if StrLess(a, b) {
      var k := LessPosition(a, b);
    }
    forall k | LessAt(a, b, k) ensures StrLess(a, b) {
      LessFrom(a, b, k);
    }
  }

  lemma {:induction false} LessPosition(a: string, b: string) returns (k: nat)
    requires StrLess(a, b)
    ensures LessAt(a, b, k)
  {
    k := 0;
    if a != [] && a[0] == b[0] {
      var i := LessPosition(a[1..], b[1..]);
      k := i + 1;
      assert a[..k] == [a[0]] + a[1..][..i] && b[..k] == [b[0]] + b[1..][..i];
    }
  }

  lemma {:induction false} LessFrom(a: string, b: string, k: nat)
    requires LessAt(a, b, k)
    ensures StrLess(a, b)
  {
    if k > 0 {
      assert a[..k][0] == a[0] && b[..k][0] == b[0];
      assert a[1..][..k - 1] == a[..k][1..] && b[1..][..k - 1] == b[..k][1..];
      LessFrom(a[1..], b[1..], k - 1);
    }
  }

  lemma {:induction false} StrLessTotal(a: string, b: string)
    ensures StrLess(a, b) || StrLess(b, a) || a == b
    ensures !(StrLess(a, b) && StrLess(b, a)) && !StrLess(a, a)
  {
    if a != [] && b != [] {
      StrLessTotal(a[1..], b[1..]);
      assert a == [a[0]] + a[1..] && b == [b[0]] + b[1..];
    }
    if a != [] {
      StrLessTotal(a[1..], a[1..]);
    }
  }

  lemma {:induction false} StrLessTransitive(a: string, b: string, c: string)
    requires StrLess(a, b) && StrLess(b, c)
    ensures StrLess(a, c)
  {
    if a != [] && a[0] == b[0] == c[0] {
      StrLessTransitive(a[1..], b[1..], c[1..]);
    }
  }

  lemma {:induction false} NotLessTransitive(a: string, b: string, c: string)
    requires !StrLess(a, b) && !StrLess(b, c)
    ensures !StrLess(a, c)
  {
    StrLessTotal(a, b);
    StrLessTotal(b, c);
    StrLessTotal(a, c);
    if StrLess(c, b) && StrLess(b, a) {
      StrLessTransitive(c, b, a);
    }
  }

  // ----- stable sorting by a string key -----

  function InsertBy<T>(x: T, s: seq<T>, key: T -> string): seq<T> {
    if s == [] || !StrLess(key(s[0]), key(x)) then [x] + s else [s[0]] + InsertBy(x, s[1..], key)
  }

  // `sorted(s, key=key)`: equal keys keep their order.
  function SortBy<T>(s: seq<T>, key: T -> string): seq<T> {
    if s == [] then [] else InsertBy(s[0], SortBy(s[1..], key), key)
  }

  ghost predicate Ordered<T>(s: seq<T>, key: T -> string) {
    forall i, j :: 0 <= i < j < |s| ==> !StrLess(key(s[j]), key(s[i]))
  }

  ghost predicate UniqueBy<T>(s: seq<T>, key: T -> string) {
    forall i, j :: 0 <= i < j < |s| ==> key(s[i]) != key(s[j])
  }

  lemma {:induction false} InsertByPermutes<T>(x: T, s: seq<T>, key: T -> string)
    ensures multiset(InsertBy(x, s, key)) == multiset(s) + multiset{x}
  {
    if s != [] && StrLess(key(s[0]), key(x)) {
      InsertByPermutes(x, s[1..], key);
      assert s == [s[0]] + s[1..];
    }
  }

  lemma {:induction false} SortByPermutes<T>(s: seq<T>, key: T -> string)
    ensures multiset(SortBy(s, key)) == multiset(s)
  {
    if s != [] {
      SortByPermutes(s[1..], key);
      InsertByPermutes(s[0], SortBy(s[1..], key), key);
      assert s == [s[0]] + s[1..];
    }
  }

  lemma {:induction false} InsertByOrdered<T>(x: T, s: seq<T>, key: T -> string)
    requires Ordered(s, key)
    ensures Ordered(InsertBy(x, s, key), key)
  {
    if s == [] {
    } else if !StrLess(key(s[0]), key(x)) {
      forall j | 0 <= j < |s| ensures !StrLess(key(s[j]), key(x)) {
        if j > 0 {
          NotLessTransitive(key(s[j]), key(s[0]), key(x));
        }
      }
    } else {
      var tail := InsertBy(x, s[1..], key);
      InsertByOrdered(x, s[1..], key);
      InsertByPermutes(x, s[1..], key);
      StrLessTotal(key(s[0]), key(x));
      forall j | 0 <= j < |tail| ensures !StrLess(key(tail[j]), key(s[0])) {
        assert tail[j] in multiset(tail);
        if tail[j] != x {
          assert tail[j] in s[1..];
          var k :| 0 <= k < |s[1..]| && s[1..][k] == tail[j];
          assert s[k + 1] == tail[j];
        }
      }
    }
  }

  lemma {:induction false} SortByOrdered<T>(s: seq<T>, key: T -> string)
    ensures Ordered(SortBy(s, key), key)
  {
    if s != [] {
      SortByOrdered(s[1..], key);
      InsertByOrdered(s[0], SortBy(s[1..], key), key);
    }
  }

  lemma {:induction false} SameMembers<T>(s: seq<T>, key: T -> string)
    ensures forall x :: x in SortBy(s, key) ==> x in s
    ensures forall x :: x in s ==> x in SortBy(s, key)
  {
    var sorted := SortBy(s, key);
    SortByPermutes(s, key);
    assert forall x :: x in sorted ==> x in multiset(sorted);
    assert forall x :: x in s ==> x in multiset(s);
  }

  lemma {:induction false} InsertByUnique<T>(x: T, s: seq<T>, key: T -> string)
    requires UniqueBy(s, key) && forall y :: y in s ==> key(y) != key(x)
    ensures UniqueBy(InsertBy(x, s, key), key)
  {
    if s != [] && StrLess(key(s[0]), key(x)) {
      var tail := InsertBy(x, s[1..], key);
      InsertByUnique(x, s[1..], key);
      InsertByPermutes(x, s[1..], key);
      assert s[0] in s;
      forall j | 0 <= j < |tail| ensures key(tail[j]) != key(s[0]) {
        assert tail[j] in multiset(tail);
        if tail[j] != x {
          assert tail[j] in s[1..];
          var k :| 0 <= k < |s[1..]| && s[1..][k] == tail[j];
          assert s[k + 1] == tail[j];
        }
      }
    }
  }

  lemma {:induction false} SortByUnique<T>(s: seq<T>, key: T -> string)
    requires UniqueBy(s, key)
    ensures UniqueBy(SortBy(s, key), key)
  {
    if s != [] {
      SortByUnique(s[1..], key);
      SameMembers(s[1..], key);
      forall y | y in SortBy(s[1..], key) ensures key(y) != key(s[0]) {
        assert y in s[1..];
        var k :| 0 <= k < |s[1..]| && s[1..][k] == y;
        assert s[k + 1] == y;
      }
      InsertByUnique(s[0], SortBy(s[1..], key), key);
    }
  }

  lemma {:induction false} SameSize<T>(a: seq<T>, b: seq<T>)
    requires multiset(a) == multiset(b)
    ensures |a| == |b|
    ensures a != [] ==> b != [] && a[0] in b && b[0] in a
  {
    assert |multiset(a)| == |a| && |multiset(b)| == |b|;
    if a != [] && b != [] {
      assert a[0] in multiset(a) && b[0] in multiset(b);
    }
  }

  lemma {:induction false} DropHead<T>(a: seq<T>, b: seq<T>)
    requires a != [] && b != [] && a[0] == b[0] && multiset(a) == multiset(b)
    ensures multiset(a[1..]) == multiset(b[1..])
  {
    assert a == [a[0]] + a[1..] && b == [b[0]] + b[1..];
    assert multiset(a[1..]) == multiset(a) - multiset{a[0]};
    assert multiset(b[1..]) == multiset(b) - multiset{b[0]};
  }

  // Two ordered arrangements of the same elements with distinct keys are the same sequence.
  lemma {:induction false} OrderedUnique<T>(a: seq<T>, b: seq<T>, key: T -> string)
    requires Ordered(a, key) && Ordered(b, key) && UniqueBy(a, key) && multiset(a) == multiset(b)
    ensures a == b
    decreases |a|
  {
    SameSize(a, b);
    if a != [] {
      HeadsAgree(a, b, key);
      DropHead(a, b);
      OrderedUnique(a[1..], b[1..], key);
      assert a == [a[0]] + a[1..] && b == [b[0]] + b[1..];
    }
  }

  lemma {:induction false} HeadsAgree<T>(a: seq<T>, b: seq<T>, key: T -> string)
    requires Ordered(a, key) && Ordered(b, key) && UniqueBy(a, key)
    requires a != [] && b != [] && a[0] in b && b[0] in a
    ensures a[0] == b[0]
  {
    var i :| 0 <= i < |a| && a[i] == b[0];
    var j :| 0 <= j < |b| && b[j] == a[0];
    StrLessTotal(key(a[0]), key(b[0]));
  }
}
