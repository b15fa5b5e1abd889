// JSON pointer resolution (RFC 6901, sections 3, 4 and 5), with ASCII digits in array indices.
module JsonPointer {
  import opened Outcomes
  import opened Text

  datatype Json =
    | Null
    | Bool(b: bool)
    | Number(n: real)
    | Str(s: string)
    | Arr(items: seq<Json>)
    | Obj(members: map<string, Json>)

  datatype PointerError =
    | MalformedPointer | MalformedEscape | MissingKey | DashIndex | InvalidIndex | OutOfRange | NotContainer

  // ----- syntax -----

  // The pattern ^(/([^~/]|~[01])*)*$.
  predicate Accepted(pointer: string) {
    pointer == [] || (pointer[0] == '/' && InToken(pointer[1..]))
  }

  predicate InToken(s: string) {
    s == []
    || (if s[0] == '~' then |s| >= 2 && (s[1] == '0' || s[1] == '1') && InToken(s[2..])
        else InToken(s[1..]))
  }

  function Tokens(pointer: string): seq<string> {
    if pointer == [] then [] else Split(pointer[1..], '/')
  }

  function Decoded(token: string): Result<string, PointerError> {
    if token == [] then Ok([])
    else if token[0] != '~' then Prepend(token[0], Decoded(token[1..]))
    else if |token| < 2 then Err(MalformedEscape)
    else if token[1] == '0' then Prepend('~', Decoded(token[2..]))
    else if token[1] == '1' then Prepend('/', Decoded(token[2..]))
    else Err(MalformedEscape)
  }

  function Prepend(c: char, rest: Result<string, PointerError>): Result<string, PointerError> {
    if rest.Ok? then Ok([c] + rest.value) else rest
  }

  function PrependAll(prefix: string, rest: Result<string, PointerError>): Result<string, PointerError> {
    if rest.Ok? then Ok(prefix + rest.value) else rest
  }

  lemma {:induction false} PrependNothing(rest: Result<string, PointerError>)
    ensures PrependAll([], rest) == rest
  {
    if rest.Ok? {
      assert [] + rest.value == rest.value;
    }
  }

  lemma {:induction false} PrependTwice(prefix: string, c: char, rest: Result<string, PointerError>)
    ensures PrependAll(prefix, Prepend(c, rest)) == PrependAll(prefix + [c], rest)
  {
    if rest.Ok? {
      assert prefix + ([c] + rest.value) == (prefix + [c]) + rest.value;
    }
  }

  // The loop over one token, advancing one character or one escape at a time.
  method DecodeToken(token: string) returns (r: Result<string, PointerError>)
    ensures r == Decoded(token)
  {
    var decoded: string := [];
    var index := 0;
    assert token[0..] == token;
    PrependNothing(Decoded(token));
    while index < |token|
      invariant index <= |token|
      invariant Decoded(token) == PrependAll(decoded, Decoded(token[index..]))
    {
      var c := token[index];
      ghost var rest := token[index..];
      assert rest[1..] == token[index + 1..];
      if c != '~' {
        PrependTwice(decoded, c, Decoded(rest[1..]));
        decoded := decoded + [c];
        index := index + 1;
      } else {
        if index + 1 >= |token| {
          return Err(MalformedEscape);
        }
        assert rest[2..] == token[index + 2..] && rest[1] == token[index + 1];
        var escape := token[index + 1];
        if escape == '0' {
          PrependTwice(decoded, '~', Decoded(rest[2..]));
          decoded := decoded + ['~'];
        } else if escape == '1' {
          PrependTwice(decoded, '/', Decoded(rest[2..]));
          decoded := decoded + ['/'];
        } else {
          return Err(MalformedEscape);
        }
        index := index + 2;
      }
    }
    assert token[index..] == [] && decoded + [] == decoded;
    return Ok(decoded);
  }

  // ----- what the syntax means -----

  // Position i holds a tilde that neither 0 nor 1 follows.
  ghost predicate BadEscapeAt(s: string, i: nat) {
    i < |s| && s[i] == '~' && (i + 1 == |s| || s[i + 1] !in "01")
  }

  lemma {:induction false} BadEscapeLater(s: string, n: nat)
    requires n <= |s| && forall i: nat :: i < n ==> !BadEscapeAt(s, i)
    ensures (exists i: nat :: BadEscapeAt(s, i)) <==> exists i: nat :: BadEscapeAt(s[n..], i)
  {
    forall i: nat | BadEscapeAt(s, i) ensures exists j: nat :: BadEscapeAt(s[n..], j) {
      assert BadEscapeAt(s[n..], i - n);
    }
    forall i: nat | BadEscapeAt(s[n..], i) ensures exists j: nat :: BadEscapeAt(s, j) {
      assert BadEscapeAt(s, i + n);
    }
  }

  // Text decodes unless it holds a bad escape, and then that is the error.
  lemma {:induction false} DecodesIff(s: string)
    ensures Decoded(s).Ok? <==> !exists i: nat :: BadEscapeAt(s, i)
    ensures Decoded(s).Err? ==> Decoded(s).error == MalformedEscape
    ensures InToken(s) <==> Decoded(s).Ok?
  {
    if s != [] {
      if BadEscapeAt(s, 0) {
      } else {
        var n := if s[0] == '~' then 2 else 1;
        BadEscapeLater(s, n);
        DecodesIff(s[n..]);
      }
    }
  }

  // A pointer is accepted when it is empty or starts with a slash, and each tilde in it is
  // followed by 0 or 1.
  lemma {:induction false} AcceptedIff(pointer: string)
    ensures Accepted(pointer) <==>
      pointer == [] || (pointer[0] == '/' && !exists i: nat :: BadEscapeAt(pointer, i))
  {
    if pointer != [] && pointer[0] == '/' {
      DecodesIff(pointer[1..]);
      BadEscapeLater(pointer, 1);
    }
  }

  // Decoding turns ~0 into a tilde and ~1 into a slash, and keeps every other character.
  lemma {:induction false} DecodedMeaning(a: string, b: string, c: char)
    requires Decoded(a).Ok? && Decoded(b).Ok?
    ensures Decoded([]) == Ok([])
    ensures Decoded(a + "~0" + b) == Ok(Decoded(a).value + "~" + Decoded(b).value)
    ensures Decoded(a + "~1" + b) == Ok(Decoded(a).value + "/" + Decoded(b).value)
    ensures c != '~' ==> Decoded(a + [c] + b) == Ok(Decoded(a).value + [c] + Decoded(b).value)
  {
    DecodedAround(a, "~0", '~', b);
    DecodedAround(a, "~1", '/', b);
    if c != '~' {
      DecodedAround(a, [c], c, b);
    }
  }

  lemma {:induction false} DecodedAround(a: string, symbol: string, c: char, b: string)
    requires Decoded(a).Ok? && Decoded(b).Ok?
    requires (symbol == "~0" && c == '~') || (symbol == "~1" && c == '/') || (symbol == [c] && c != '~')
    ensures Decoded(a + symbol + b) == Ok(Decoded(a).value + [c] + Decoded(b).value)
    decreases |a|
  {
    if a == [] {
      assert [] + symbol + b == symbol + b;
      DecodedSymbol(symbol, c, b);
      assert Decoded([]).value + [c] == [c];
    } else {
      hide Decoded;
      var n := DecodedStep(a, symbol + b);
      Regroup(a, symbol, b);
      Regroup(a[n..], symbol, b);
      DecodedAround(a[n..], symbol, c, b);
      var first := Decoded(a).value[0];
      PrependMore(first, Decoded(a[n..]).value, [c], Decoded(b).value);
    }
  }

  // Text that decodes starts with one character or one escape, whatever follows.
  lemma {:induction false} DecodedStep(a: string, more: string) returns (n: nat)
    requires a != [] && Decoded(a).Ok?
    ensures 1 <= n <= |a| && Decoded(a[n..]).Ok? && Decoded(a).value != []
    ensures Decoded(a).value == [Decoded(a).value[0]] + Decoded(a[n..]).value
    ensures Decoded(a + more) == Prepend(Decoded(a).value[0], Decoded(a[n..] + more))
  {
    n := if a[0] == '~' then 2 else 1;
    assert (a + more)[n..] == a[n..] + more;
  }

  lemma {:induction false} DecodedSymbol(symbol: string, c: char, b: string)
    requires Decoded(b).Ok?
    requires (symbol == "~0" && c == '~') || (symbol == "~1" && c == '/') || (symbol == [c] && c != '~')
    ensures Decoded(symbol + b) == Ok([c] + Decoded(b).value)
  {
    assert (symbol + b)[|symbol|..] == b;
  }

  lemma {:induction false} Regroup(a: string, b: string, c: string)
    ensures a + b + c == a + (b + c)
  {
  }

  lemma {:induction false} PrependMore(c: char, x: string, y: string, z: string)
    ensures [c] + (x + y + z) == ([c] + x) + y + z
  {
  }

  // ----- resolution -----

  predicate IsIndex(token: string) {
    token != [] && AllDigits(token) && NoLeadingZero(token)
  }

  // One raw token against one node.
  function StepInto(node: Json, raw: string): Result<Json, PointerError> {
    var decoded := Decoded(raw);
    if decoded.Err? then Err(decoded.error)
    else
      var token := decoded.value;
      match node
      case Obj(members) => if token in members then Ok(members[token]) else Err(MissingKey)
      case Arr(items) =>
        if token == "-" then Err(DashIndex)
        else if !IsIndex(token) then Err(InvalidIndex)
        else if ParseNat(token) >= |items| then Err(OutOfRange)
        else Ok(items[ParseNat(token)])
      case _ => Err(NotContainer)
  }

  function Follow(node: Json, tokens: seq<string>): Result<Json, PointerError> {
    if tokens == [] then Ok(node)
    else
      var next := StepInto(node, tokens[0]);
      if next.Err? then next else Follow(next.value, tokens[1..])
  }

  function Resolved(document: Json, pointer: string): Result<Json, PointerError> {
    if !Accepted(pointer) then Err(MalformedPointer) else Follow(document, Tokens(pointer))
  }

  lemma {:induction false} FollowNext(node: Json, tokens: seq<string>, i: nat)
    requires i < |tokens|
    ensures var next := StepInto(node, tokens[i]);
            Follow(node, tokens[i..]) == if next.Err? then next else Follow(next.value, tokens[i + 1..])
  {
    assert tokens[i..][1..] == tokens[i + 1..];
  }

  // The body of the token loop.
  method Descend(current: Json, raw: string) returns (r: Result<Json, PointerError>)
    ensures r == StepInto(current, raw)
  {
    var decoded := DecodeToken(raw);
    if decoded.Err? {
      return Err(decoded.error);
    }
    var token := decoded.value;
    if current.Obj? {
      if token !in current.members {
        return Err(MissingKey);
      }
      return Ok(current.members[token]);
    }
    if current.Arr? {
      if token == "-" {
        return Err(DashIndex);
      }
      if !IsIndex(token) {
        return Err(InvalidIndex);
      }
      var index := ParseNat(token);
      if index >= |current.items| {
        return Err(OutOfRange);
      }
      return Ok(current.items[index]);
    }
    return Err(NotContainer);
  }

  method ResolveJsonPointer(document: Json, pointer: string) returns (r: Result<Json, PointerError>)
    ensures r == Resolved(document, pointer)
  {
    if pointer == [] {
      return Ok(document);
    }
    if !Accepted(pointer) {
      return Err(MalformedPointer);
    }
    var current := document;
    var tokens := Split(pointer[1..], '/');
    for i := 0 to |tokens|
      invariant Follow(document, tokens) == Follow(current, tokens[i..])
    {
      FollowNext(current, tokens, i);
      var next := Descend(current, tokens[i]);
      if next.Err? {
        return next;
      }
      current := next.value;
    }
    return Ok(current);
  }

  // A raw token against each kind of node: a member by its decoded key, an item by its decimal
  // index, which has no leading zero, and the errors for everything else.
  lemma {:induction false} StepMeaning(node: Json, raw: string)
    requires Decoded(raw).Ok?
    ensures var token, r := Decoded(raw).value, StepInto(node, raw);
            && (node.Obj? ==> r == if token in node.members then Ok(node.members[token]) else Err(MissingKey))
            && (node.Arr? ==>
                  && (forall n :: 0 <= n < |node.items| && token == Decimal(n) ==> r == Ok(node.items[n]))
                  && (r == Err(OutOfRange) <==> exists n :: n >= |node.items| && token == Decimal(n))
                  && (r == Err(DashIndex) <==> token == "-")
                  && (r == Err(InvalidIndex) <==> token != "-" && forall n: nat :: token != Decimal(n)))
            && (!node.Obj? && !node.Arr? ==> r == Err(NotContainer))
  {
    hide Decoded, Decimal, ParseNat, IsIndex, AllDigits;
    IndexIsDecimal(Decoded(raw).value);
  }

  // The index tokens are the decimal numerals.
  lemma {:induction false} IndexIsDecimal(token: string)
    ensures IsIndex(token) <==> exists n: nat :: token == Decimal(n)
    ensures forall n: nat :: token == Decimal(n) ==> AllDigits(token) && ParseNat(token) == n && token != "-"
    ensures IsIndex(token) ==> AllDigits(token) && token == Decimal(ParseNat(token))
  {
    hide Decimal, ParseNat;
    if IsIndex(token) {
      DecimalParse(token);
    }
    forall n: nat | token == Decimal(n)
      ensures IsIndex(token) && ParseNat(token) == n && token != "-"
    {
      ParseDecimal(n);
      assert IsDigit(token[0]);
    }
  }

  // An escape error of the token comes before anything about the node.
  lemma {:induction false} EscapeFirst(node: Json, raw: string)
    ensures Decoded(raw).Err? <==> StepInto(node, raw) == Err(MalformedEscape)
  {
    DecodesIff(raw);
  }

  // ----- accepted pointers never reach the escape errors -----

  lemma {:induction false} AcceptedTokensDecode(s: string)
    requires InToken(s)
    ensures forall t :: t in Split(s, '/') ==> Decoded(t).Ok?
  {
    if s == [] {
      assert Split(s, '/') == [[]];
    } else if s[0] == '~' {
      AcceptedTokensDecode(s[2..]);
      var rest := Split(s[2..], '/');
      assert s[1..][1..] == s[2..];
      assert Split(s[1..], '/') == [[s[1]] + rest[0]] + rest[1..];
      assert Split(s, '/') == [['~'] + ([s[1]] + rest[0])] + rest[1..];
      var t := ['~'] + ([s[1]] + rest[0]);
      assert t[2..] == rest[0];
    } else {
      AcceptedTokensDecode(s[1..]);
      var rest := Split(s[1..], '/');
      if s[0] != '/' {
        assert ([s[0]] + rest[0])[1..] == rest[0];
      } else {
        assert forall t :: t in Split(s, '/') ==> t == [] || t in rest;
      }
    }
  }

  lemma {:induction false} NoEscapeErrors(document: Json, pointer: string)
    requires Accepted(pointer)
    ensures Resolved(document, pointer) != Err(MalformedEscape)
    ensures Resolved(document, pointer) != Err(MalformedPointer)
  {
    if pointer != [] {
      AcceptedTokensDecode(pointer[1..]);
    }
    FollowHasNoEscapeError(document, Tokens(pointer));
  }

  lemma {:induction false} FollowHasNoEscapeError(node: Json, tokens: seq<string>)
    requires forall t :: t in tokens ==> Decoded(t).Ok?
    ensures Follow(node, tokens) != Err(MalformedEscape) && Follow(node, tokens) != Err(MalformedPointer)
  {
    if tokens != [] {
      assert tokens[0] in tokens;
      var next := StepInto(node, tokens[0]);
      if next.Ok? {
        FollowHasNoEscapeError(next.value, tokens[1..]);
      }
    }
  }

  // ----- composition -----

  lemma {:induction false} InTokenAppend(a: string, q: string)
    requires InToken(a) && Accepted(q)
    ensures InToken(a + q)
  {
    if a == [] {
      assert a + q == q;
    } else if a[0] == '~' {
      InTokenAppend(a[2..], q);
      assert (a + q)[2..] == a[2..] + q;
    } else {
      InTokenAppend(a[1..], q);
      assert (a + q)[1..] == a[1..] + q;
    }
  }

  lemma {:induction false} FollowAppend(node: Json, a: seq<string>, b: seq<string>)
    ensures Follow(node, a + b)
         == if Follow(node, a).Ok? then Follow(Follow(node, a).value, b) else Follow(node, a)
  {
    if a == [] {
      assert a + b == b;
    } else {
      assert (a + b)[1..] == a[1..] + b;
      var next := StepInto(node, a[0]);
      if next.Ok? {
        FollowAppend(next.value, a[1..], b);
      }
    }
  }

  // Resolving p + q is resolving q in the result of p, failing exactly when that fails and with
  // the same error.
  lemma {:induction false} Composition(document: Json, p: string, q: string)
    requires Accepted(p) && Accepted(q)
    ensures Accepted(p + q)
    ensures Resolved(document, p + q)
         == if Resolved(document, p).Ok? then Resolved(Resolved(document, p).value, q) else Resolved(document, p)
  {
    if p == [] {
      assert p + q == q;
    } else {
      InTokenAppend(p[1..], q);
      assert (p + q)[1..] == p[1..] + q;
      if q == [] {
        assert p + q == p;
        assert Tokens(p + q) == Tokens(p) + [];
      } else {
        SplitAppend(p[1..], q[1..], '/');
        assert p[1..] + ['/'] + q[1..] == (p + q)[1..];
      }
      FollowAppend(document, Tokens(p), Tokens(q));
    }
  }

  // ----- printing a path -----

  datatype Part = Member(key: string) | Element(index: nat)

  function Child(node: Json, part: Part): Option<Json> {
    match part
    case Member(key) => if node.Obj? && key in node.members then Some(node.members[key]) else None
    case Element(index) => if node.Arr? && index < |node.items| then Some(node.items[index]) else None
  }

  function NodeAt(document: Json, path: seq<Part>): Option<Json> {
    if path == [] then Some(document)
    else
      var child := Child(document, path[0]);
      if child.None? then None else NodeAt(child.value, path[1..])
  }

  function Escape(key: string): string {
    if key == [] then []
    else (if key[0] == '~' then "~0" else if key[0] == '/' then "~1" else [key[0]]) + Escape(key[1..])
  }

  function TokenOf(part: Part): string {
    match part
    case Member(key) => Escape(key)
    case Element(index) => Decimal(index)
  }

  function Print(path: seq<Part>): string {
    if path == [] then [] else "/" + TokenOf(path[0]) + Print(path[1..])
  }

  function PathTokens(path: seq<Part>): seq<string> {
    if path == [] then [] else [TokenOf(path[0])] + PathTokens(path[1..])
  }

  // Printing a key writes a tilde as ~0 and a slash as ~1, and other characters as they are.
  lemma {:induction false} EscapeMeaning(a: string, b: string, c: char)
    ensures Escape([]) == [] && Escape(a + b) == Escape(a) + Escape(b)
    ensures Escape([c]) == match c case '~' => "~0" case '/' => "~1" case _ => [c]
  {
    assert Escape([c][1..]) == [];
    EscapeAppend(a, b);
  }

  lemma {:induction false} EscapeAppend(a: string, b: string)
    ensures Escape(a + b) == Escape(a) + Escape(b)
  {
    if a == [] {
      assert [] + b == b && Escape([]) + Escape(b) == Escape(b);
    } else {
      EscapeAppend(a[1..], b);
      assert (a + b)[1..] == a[1..] + b;
      var symbol := if a[0] == '~' then "~0" else if a[0] == '/' then "~1" else [a[0]];
      Regroup(symbol, Escape(a[1..]), Escape(b));
    }
  }

  lemma {:induction false} EscapeDecodes(key: string)
    ensures Decoded(Escape(key)) == Ok(key)
    ensures '/' !in Escape(key)
    ensures InToken(Escape(key))
  {
    if key != [] {
      EscapeDecodes(key[1..]);
      var rest := Escape(key[1..]);
      assert [key[0]] + key[1..] == key;
      if key[0] == '~' || key[0] == '/' {
        assert Escape(key)[2..] == rest;
      } else {
        assert Escape(key)[1..] == rest;
      }
    }
  }

  lemma {:induction false} DigitsDecode(s: string)
    requires AllDigits(s)
    ensures Decoded(s) == Ok(s) && InToken(s) && '/' !in s
  {
    if s != [] {
      DigitsDecode(s[1..]);
      assert [s[0]] + s[1..] == s;
    }
  }

  lemma {:induction false} TokenDecodes(part: Part)
    ensures Decoded(TokenOf(part)) == Ok(match part case Member(key) => key case Element(i) => Decimal(i))
    ensures '/' !in TokenOf(part) && InToken(TokenOf(part))
  {
    match part
    case Member(key) => EscapeDecodes(key);
    case Element(i) => DigitsDecode(Decimal(i));
  }

  lemma {:induction false} FirstToken(token: string, rest: string)
    requires '/' !in token && (rest == [] || rest[0] == '/')
    ensures Split(token + rest, '/') == [token] + Tokens(rest)
  {
    SplitWhole(token, '/');
    if rest == [] {
      assert token + rest == token;
    } else {
      assert token + rest == token + ['/'] + rest[1..];
      SplitAppend(token, rest[1..], '/');
    }
  }

  lemma {:induction false} PrintTokens(path: seq<Part>)
    ensures Accepted(Print(path)) && Tokens(Print(path)) == PathTokens(path)
  {
    if path != [] {
      var token, rest := TokenOf(path[0]), Print(path[1..]);
      PrintTokens(path[1..]);
      TokenDecodes(path[0]);
      assert Print(path) == "/" + (token + rest) by {
        assert "/" + token + rest == "/" + (token + rest);
      }
      assert Print(path)[1..] == token + rest;
      InTokenAppend(token, rest);
      FirstToken(token, rest);
    }
  }

  lemma {:induction false} FollowPath(node: Json, path: seq<Part>)
    requires NodeAt(node, path).Some?
    ensures Follow(node, PathTokens(path)) == Ok(NodeAt(node, path).value)
  {
    if path != [] {
      TokenDecodes(path[0]);
      if path[0].Element? {
        ParseDecimal(path[0].index);
        assert Decimal(path[0].index) != "-";
      }
      var child := Child(node, path[0]).value;
      assert StepInto(node, TokenOf(path[0])) == Ok(child);
      FollowPath(child, path[1..]);
      assert PathTokens(path)[1..] == PathTokens(path[1..]);
    }
  }

  // For every document and every path to a node of it, the printed pointer resolves to that node.
  lemma {:induction false} RoundTrip(document: Json, path: seq<Part>)
    requires NodeAt(document, path).Some?
    ensures Accepted(Print(path))
    ensures Resolved(document, Print(path)) == Ok(NodeAt(document, path).value)
  {
    PrintTokens(path);
    FollowPath(document, path);
  }

  // ----- and back: every pointer that resolves is the printed form of one path -----

  lemma {:induction false} DecodedEscapes(token: string)
    requires '/' !in token && Decoded(token).Ok?
    ensures Escape(Decoded(token).value) == token
  {
    if token != [] {
      if token[0] == '~' {
        DecodedEscapes(token[2..]);
        assert Decoded(token).value[1..] == Decoded(token[2..]).value;
        assert token == [token[0], token[1]] + token[2..];
      } else {
        DecodedEscapes(token[1..]);
        assert Decoded(token).value[1..] == Decoded(token[1..]).value;
        assert token == [token[0]] + token[1..];
      }
    }
  }

  lemma {:induction false} TokenIsPart(node: Json, token: string) returns (part: Part)
    requires '/' !in token && StepInto(node, token).Ok?
    ensures TokenOf(part) == token && Child(node, part) == Some(StepInto(node, token).value)
  {
    var decoded := Decoded(token).value;
    DecodedEscapes(token);
    if node.Obj? {
      part := Member(decoded);
    } else {
      DecimalParse(decoded);
      DigitsEscape(decoded);
      part := Element(ParseNat(decoded));
    }
  }

  lemma {:induction false} DigitsEscape(s: string)
    requires AllDigits(s)
    ensures Escape(s) == s
  {
    if s != [] {
      DigitsEscape(s[1..]);
      assert [s[0]] + s[1..] == s;
    }
  }

  lemma {:induction false} FollowIsPath(node: Json, tokens: seq<string>) returns (path: seq<Part>)
    requires (forall t :: t in tokens ==> '/' !in t) && Follow(node, tokens).Ok?
    ensures PathTokens(path) == tokens && NodeAt(node, path) == Some(Follow(node, tokens).value)
  {
    if tokens == [] {
      path := [];
    } else {
      assert tokens[0] in tokens;
      var part := TokenIsPart(node, tokens[0]);
      var rest := FollowIsPath(StepInto(node, tokens[0]).value, tokens[1..]);
      path := [part] + rest;
      assert path[1..] == rest;
      assert tokens == [tokens[0]] + tokens[1..];
    }
  }

  lemma {:induction false} PrintIsJoin(path: seq<Part>)
    requires path != []
    ensures Print(path) == "/" + Join(PathTokens(path), '/')
  {
    var token := TokenOf(path[0]);
    if |path| > 1 {
      PrintIsJoin(path[1..]);
      var rest := Join(PathTokens(path[1..]), '/');
      assert PathTokens(path)[1..] == PathTokens(path[1..]);
      assert Join(PathTokens(path), '/') == token + ['/'] + rest;
      assert "/" + token + ("/" + rest) == "/" + (token + ['/'] + rest);
    } else {
      assert Print(path[1..]) == [];
    }
  }

  lemma {:induction false} PathsAgree(node: Json, a: seq<Part>, b: seq<Part>)
    requires NodeAt(node, a).Some? && NodeAt(node, b).Some? && PathTokens(a) == PathTokens(b)
    ensures a == b
  {
    if a != [] && b != [] {
      assert PathTokens(a)[0] == PathTokens(b)[0];
      TokenDecodes(a[0]);
      TokenDecodes(b[0]);
      assert Child(node, a[0]).Some? && Child(node, b[0]).Some?;
      if a[0].Element? {
        DecimalInjective(a[0].index, b[0].index);
      }
      assert PathTokens(a)[1..] == PathTokens(a[1..]) && PathTokens(b)[1..] == PathTokens(b[1..]);
      PathsAgree(Child(node, a[0]).value, a[1..], b[1..]);
    }
  }

  // A pointer that resolves is the printed form of exactly one path, and resolves to its node: no
  // two spellings reach the same node through the same path.
  lemma {:induction false} ResolvedIsCanonical(document: Json, pointer: string) returns (path: seq<Part>)
    requires Resolved(document, pointer).Ok?
    ensures Print(path) == pointer && NodeAt(document, path) == Some(Resolved(document, pointer).value)
    ensures forall other :: Print(other) == pointer && NodeAt(document, other).Some? ==> other == path
  {
    if pointer != [] {
      SplitParts(pointer[1..], '/');
    }
    path := FollowIsPath(document, Tokens(pointer));
    if pointer != [] {
      assert path != [];
      PrintIsJoin(path);
      JoinSplit(pointer[1..], '/');
      assert "/" + pointer[1..] == pointer;
    }
    forall other | Print(other) == pointer && NodeAt(document, other).Some? ensures other == path {
      PrintTokens(other);
      PathsAgree(document, other, path);
    }
  }
}
