/**
 JSON Pointer text and lookup (pointer.go, and pathTemplate.resolve in query.go).

 Text: TokensRoundTrip shows that escaping, joining, splitting and the two-pass unescape return the
 tokens of every pointer except the one made of a single empty token (sections 3 and 4 of RFC 6901).
 */
module Pointer {
  import opened Wrappers
  import opened Bytes
  import opened Numerals
  import opened Document

  const SLASH: byte := 0x2f
  const TILDE: byte := 0x7e
  const ONE: byte := 0x31

  type Token = bytes

  // ----- text -----

  /** `strings.ReplaceAll` for a non-empty `from` */
  function ReplaceAll(s: bytes, from: bytes, to: bytes): bytes
    requires |from| > 0
  {
    if |s| == 0 then []
    else if from <= s then to + ReplaceAll(s[|from|..], from, to)
    else [s[0]] + ReplaceAll(s[1..], from, to)
  }

  /** `strings.Split(s, "/")`: always at least one part */
  function Split(s: bytes): (parts: seq<bytes>)
    ensures |parts| >= 1
  {
    if |s| == 0 then [[]]
    else
      var rest := Split(s[1..]);
      if s[0] == SLASH then [[]] + rest else [[s[0]] + rest[0]] + rest[1..]
  }

  /** `strings.Join(parts, "/")` */
  function Join(parts: seq<bytes>): bytes {
    if |parts| == 0 then []
    else if |parts| == 1 then parts[0]
    else parts[0] + [SLASH] + Join(parts[1..])
  }

  function EscapeToken(tok: Token): bytes {
    ReplaceAll(ReplaceAll(tok, [TILDE], [TILDE, ZERO]), [SLASH], [TILDE, ONE])
  }

  function UnescapeToken(part: bytes): Token {
    ReplaceAll(ReplaceAll(part, [TILDE, ONE], [SLASH]), [TILDE, ZERO], [TILDE])
  }

  function UnescapeAll(parts: seq<bytes>): seq<Token> {
    seq(|parts|, i requires 0 <= i < |parts| => UnescapeToken(parts[i]))
  }

  function EscapeAll(tokens: seq<Token>): seq<bytes> {
    seq(|tokens|, i requires 0 <= i < |tokens| => EscapeToken(tokens[i]))
  }

  /** `pointerTokens`; None is the error for text that does not start with a slash. */
  function Tokens(ptr: bytes): Option<seq<Token>> {
    if ptr == [] || ptr == [SLASH] then Some([])
    else if ptr[0] != SLASH then None
    else Some(UnescapeAll(Split(ptr[1..])))
  }

  /** The text `pathTemplate.resolve` builds from literal tokens. */
  function PointerText(tokens: seq<Token>): bytes {
    if tokens == [] then [SLASH] else [SLASH] + Join(EscapeAll(tokens))
  }

  // ----- escaping -----

  /** One character of the escaped form; `slashes` says whether slashes are escaped too. */
  function EscapeByte(b: byte, slashes: bool): bytes {
    if b == TILDE then [TILDE, ZERO] else if slashes && b == SLASH then [TILDE, ONE] else [b]
  }

  function EscapeWith(tok: Token, slashes: bool): bytes {
    if |tok| == 0 then [] else EscapeByte(tok[0], slashes) + EscapeWith(tok[1..], slashes)
  }

  /** One byte of escaping. */
  lemma EscapeStep(b: byte, rest: bytes, slashes: bool)
    ensures EscapeWith([b] + rest, slashes) == EscapeByte(b, slashes) + EscapeWith(rest, slashes)
  {
    var tok := [b] + rest;
    assert tok[0] == b && tok[1..] == rest;
  }

  /** One byte of replacing a single byte. */
  lemma ReplaceByte(b: byte, rest: bytes, c: byte, to: bytes)
    ensures ReplaceAll([b] + rest, [c], to) == (if b == c then to else [b]) + ReplaceAll(rest, [c], to)
  {
    var s := [b] + rest;
    assert s[0] == b && s[1..] == rest;
    assert [c] <= s <==> s[..1] == [c];
    assert s[..1] == [b] && ([b] == [c] <==> [b][0] == [c][0]);
  }

  /** Replacing a pair of bytes that stands at the front. */
  lemma ReplaceHit(x: byte, y: byte, rest: bytes, to: bytes)
    ensures ReplaceAll([x, y] + rest, [x, y], to) == to + ReplaceAll(rest, [x, y], to)
  {
    var s := [x, y] + rest;
    assert [x, y] <= s && s[2..] == rest;
  }

  /** Replacing a pair of bytes where it does not stand at the front. */
  lemma ReplaceMiss(b: byte, rest: bytes, x: byte, y: byte, to: bytes)
    requires b != x || rest == [] || rest[0] != y
    ensures ReplaceAll([b] + rest, [x, y], to) == [b] + ReplaceAll(rest, [x, y], to)
  {
    var s := [b] + rest;
    assert s[0] == b && s[1..] == rest && (rest != [] ==> s[1] == rest[0]);
  }

  lemma {:induction false} FirstReplacement(tok: Token)
    ensures ReplaceAll(tok, [TILDE], [TILDE, ZERO]) == EscapeWith(tok, false)
  {
    if |tok| > 0 {
      hide ReplaceAll, EscapeWith;
      FirstReplacement(tok[1..]);
      ReplaceByte(tok[0], tok[1..], TILDE, [TILDE, ZERO]);
      EscapeStep(tok[0], tok[1..], false);
      assert tok == [tok[0]] + tok[1..];
    }
  }

  lemma {:induction false} SecondReplacement(tok: Token)
    ensures ReplaceAll(EscapeWith(tok, false), [SLASH], [TILDE, ONE]) == EscapeWith(tok, true)
  {
    if |tok| > 0 {
      hide ReplaceAll, EscapeWith;
      SecondReplacement(tok[1..]);
      var b, rest := tok[0], EscapeWith(tok[1..], false);
      assert tok == [b] + tok[1..];
      EscapeStep(b, tok[1..], false);
      EscapeStep(b, tok[1..], true);
      SecondStep(b, rest);
    }
  }

  /** The second replacement on one escaped byte. */
  lemma SecondStep(b: byte, rest: bytes)
    ensures ReplaceAll(EscapeByte(b, false) + rest, [SLASH], [TILDE, ONE])
         == EscapeByte(b, true) + ReplaceAll(rest, [SLASH], [TILDE, ONE])
  {
    hide ReplaceAll;
    if b == TILDE {
      TwoBytesStay(TILDE, ZERO, rest, SLASH, [TILDE, ONE]);
    } else {
      ReplaceByte(b, rest, SLASH, [TILDE, ONE]);
    }
  }

  lemma TwoBytesStay(x: byte, y: byte, rest: bytes, c: byte, to: bytes)
    requires x != c && y != c
    ensures ReplaceAll([x, y] + rest, [c], to) == [x, y] + ReplaceAll(rest, [c], to)
  {
    hide ReplaceAll;
    ReplaceByte(y, rest, c, to);
    ReplaceByte(x, [y] + rest, c, to);
    Regroup(x, y, rest);
    Regroup(x, y, ReplaceAll(rest, [c], to));
  }

  lemma Regroup(x: byte, y: byte, rest: bytes)
    ensures [x] + ([y] + rest) == [x, y] + rest
  {
  }

  lemma EscapeIsOnePass(tok: Token)
    ensures EscapeToken(tok) == EscapeWith(tok, true)
  {
    hide ReplaceAll, EscapeWith;
    FirstReplacement(tok);
    SecondReplacement(tok);
  }

  /** The first unescape pass brings the slashes back and touches nothing else. */
  lemma {:induction false} FirstUnescape(tok: Token)
    ensures ReplaceAll(EscapeWith(tok, true), [TILDE, ONE], [SLASH]) == EscapeWith(tok, false)
  {
    if |tok| > 0 {
      hide ReplaceAll, EscapeWith;
      FirstUnescape(tok[1..]);
      var b, rest := tok[0], EscapeWith(tok[1..], true);
      assert tok == [b] + tok[1..];
      EscapeStep(b, tok[1..], false);
      EscapeStep(b, tok[1..], true);
      if b == TILDE {
        ReplaceMiss(ZERO, rest, TILDE, ONE, [SLASH]);
        ReplaceMiss(TILDE, [ZERO] + rest, TILDE, ONE, [SLASH]);
        Regroup(TILDE, ZERO, rest);
        Regroup(TILDE, ZERO, EscapeWith(tok[1..], false));
      } else if b == SLASH {
        ReplaceHit(TILDE, ONE, rest, [SLASH]);
      } else {
        ReplaceMiss(b, rest, TILDE, ONE, [SLASH]);
      }
    }
  }

  lemma {:induction false} SecondUnescape(tok: Token)
    ensures ReplaceAll(EscapeWith(tok, false), [TILDE, ZERO], [TILDE]) == tok
  {
    if |tok| > 0 {
      hide ReplaceAll, EscapeWith;
      SecondUnescape(tok[1..]);
      var b, rest := tok[0], EscapeWith(tok[1..], false);
      assert tok == [b] + tok[1..];
      EscapeStep(b, tok[1..], false);
      if b == TILDE {
        ReplaceHit(TILDE, ZERO, rest, [TILDE]);
      } else {
        ReplaceMiss(b, rest, TILDE, ZERO, [TILDE]);
      }
    }
  }

  lemma UnescapeUndoesEscape(tok: Token)
    ensures UnescapeToken(EscapeToken(tok)) == tok
  {
    EscapeIsOnePass(tok);
    FirstUnescape(tok);
    SecondUnescape(tok);
  }

  lemma {:induction false} EscapedHasNoSlash(tok: Token)
    ensures SLASH !in EscapeWith(tok, true)
  {
    if |tok| > 0 {
      EscapedHasNoSlash(tok[1..]);
    }
  }

  // ----- splitting -----

  lemma {:induction false} SplitPart(p: bytes)
    requires SLASH !in p
    ensures Split(p) == [p]
  {
    if |p| > 0 {
      SplitPart(p[1..]);
      assert p == [p[0]] + p[1..];
    }
  }

  lemma {:induction false} SplitAtSlash(p: bytes, s: bytes)
    requires SLASH !in p
    ensures Split(p + [SLASH] + s) == [p] + Split(s)
  {
    var t := p + [SLASH] + s;
    if |p| == 0 {
      assert t[1..] == s;
    } else {
      SplitAtSlash(p[1..], s);
      assert t[1..] == p[1..] + [SLASH] + s;
      assert p == [p[0]] + p[1..];
      assert ([p[1..]] + Split(s))[1..] == Split(s);
    }
  }

  lemma {:induction false} SplitUndoesJoin(parts: seq<bytes>)
    requires |parts| > 0
    requires forall i | 0 <= i < |parts| :: SLASH !in parts[i]
    ensures Split(Join(parts)) == parts
  {
    if |parts| == 1 {
      SplitPart(parts[0]);
    } else {
      SplitUndoesJoin(parts[1..]);
      SplitAtSlash(parts[0], Join(parts[1..]));
      assert parts == [parts[0]] + parts[1..];
    }
  }

  /** The text of a token list parses back to it, except for the single empty token. */
  lemma TokensRoundTrip(tokens: seq<Token>)
    ensures Tokens(PointerText(tokens)) == Some(tokens) <==> tokens != [[]]
  {
    if tokens != [] {
      var parts := EscapeAll(tokens);
      forall i | 0 <= i < |parts| ensures SLASH !in parts[i] && UnescapeToken(parts[i]) == tokens[i] {
        EscapeIsOnePass(tokens[i]);
        EscapedHasNoSlash(tokens[i]);
        UnescapeUndoesEscape(tokens[i]);
      }
      var text := PointerText(tokens);
      assert text[1..] == Join(parts);
      if tokens == [[]] {
        assert EscapeToken([]) == [];
        assert text == [SLASH];
      } else {
        SplitUndoesJoin(parts);
        assert UnescapeAll(parts) == tokens;
        NonEmptyJoin(tokens);
        assert text != [SLASH];
      }
    }
  }

  lemma NonEmptyJoin(tokens: seq<Token>)
    requires tokens != [] && tokens != [[]]
    ensures Join(EscapeAll(tokens)) != []
  {
    if |tokens| == 1 {
      EscapeIsOnePass(tokens[0]);
      assert tokens == [tokens[0]];
      assert EscapeByte(tokens[0][0], true) != [];
    }
  }

  // ----- joining a base path and a key -----

  /** `pointerJoin`: the key goes in as it is, without escaping. */
  function PointerJoin(base: bytes, key: bytes): bytes {
    var k := if |key| > 0 && key[0] == SLASH then key[1..] else key;
    if base == [] || base == [SLASH] then [SLASH] + k
    else (if base[|base| - 1] == SLASH then base[..|base| - 1] else base) + [SLASH] + k
  }

  /** One byte of splitting. */
  lemma SplitStep(b: byte, t: bytes)
    ensures var rest := Split(t);
            Split([b] + t) == if b == SLASH then [[]] + rest else [[b] + rest[0]] + rest[1..]
  {
    assert ([b] + t)[1..] == t;
  }

  lemma {:induction false} SplitLast(s: bytes, key: bytes)
    requires SLASH !in key
    ensures Split(s + [SLASH] + key) == Split(s) + [key]
  {
    hide Split;
    if |s| == 0 {
      SplitPart(key);
      SplitPart([]);
      SplitStep(SLASH, key);
      assert s + [SLASH] + key == [SLASH] + key;
    } else {
      SplitLast(s[1..], key);
      SplitStep(s[0], s[1..]);
      SplitStep(s[0], s[1..] + [SLASH] + key);
      assert s + [SLASH] + key == [s[0]] + (s[1..] + [SLASH] + key) && s == [s[0]] + s[1..];
      var rest := Split(s[1..]);
      assert (rest + [key])[1..] == rest[1..] + [key];
    }
  }

  /** The two bytes stand next to each other somewhere in the text. */
  predicate Contains(s: bytes, pair: bytes)
    requires |pair| == 2
  {
    |s| >= 2 && (pair <= s || Contains(s[1..], pair))
  }

  /** Replacing a pair by one byte shortens the text exactly when the pair occurs, and otherwise keeps it. */
  lemma {:induction false} ReplaceLength(s: bytes, from: bytes, to: bytes)
    requires |from| == 2 && |to| == 1
    ensures |ReplaceAll(s, from, to)| <= |s|
    ensures if Contains(s, from) then |ReplaceAll(s, from, to)| < |s| else ReplaceAll(s, from, to) == s
  {
    if |s| > 0 {
      if from <= s {
        ReplaceLength(s[2..], from, to);
      } else {
        ReplaceLength(s[1..], from, to);
        assert s == [s[0]] + s[1..];
      }
    }
  }

  /** One of the two escape sequences occurs. */
  predicate HasEscape(s: bytes) {
    Contains(s, [TILDE, ZERO]) || Contains(s, [TILDE, ONE])
  }

  /** Unescaping leaves a text alone if and only if it contains neither "~0" nor "~1". */
  lemma EscapeFreeExactly(part: bytes)
    ensures UnescapeToken(part) == part <==> !HasEscape(part)
    ensures |UnescapeToken(part)| <= |part|
    ensures part != [] ==> UnescapeToken(part) != []
  {
    var first := ReplaceAll(part, [TILDE, ONE], [SLASH]);
    ReplaceLength(part, [TILDE, ONE], [SLASH]);
    ReplaceLength(first, [TILDE, ZERO], [TILDE]);
  }

  /** The last part of a split is what stands behind the last slash. */
  lemma {:induction false} SplitLastPart(s: bytes, k: bytes)
    ensures var p, q := Split(s + [SLASH] + k), Split(k);
            |p| >= 2 && p[|p| - 1] == q[|q| - 1]
  {
    hide Split;
    if s == [] {
      SplitStep(SLASH, k);
      assert s + [SLASH] + k == [SLASH] + k;
    } else {
      SplitLastPart(s[1..], k);
      SplitStep(s[0], s[1..] + [SLASH] + k);
      assert s + [SLASH] + k == [s[0]] + (s[1..] + [SLASH] + k);
    }
  }

  lemma {:induction false} LastPartShort(k: bytes)
    ensures var q := Split(k);
            |q[|q| - 1]| <= |k| && (SLASH in k ==> |q| >= 2 && |q[|q| - 1]| < |k|)
  {
    if k != [] {
      LastPartShort(k[1..]);
      assert k == [k[0]] + k[1..];
    }
  }

  /** A key with a slash in it is never the last token of the joined path: what stands behind its slash is shorter. */
  lemma SlashedKeyIsCut(base: bytes, key: bytes)
    requires SLASH in key && (base == [] || base[0] == SLASH)
    ensures Tokens(PointerJoin(base, key)) != Some(Tokens(base).value + [key])
  {
    var k := if key[0] == SLASH then key[1..] else key;
    var j := PointerJoin(base, key);
    assert j[0] == SLASH;
    LastOfJoined(base, key, k);
    var tokens := Tokens(base).value;
    if j != [SLASH] {
      hide Split, UnescapeToken, PointerJoin;
      var parts := Split(j[1..]);
      EscapeFreeExactly(parts[|parts| - 1]);
      assert UnescapeAll(parts)[|parts| - 1] == UnescapeToken(parts[|parts| - 1]);
      assert (tokens + [key])[|tokens|] == key;
    }
  }

  lemma LastOfJoined(base: bytes, key: bytes, k: bytes)
    requires SLASH in key && (base == [] || base[0] == SLASH) && k == if key[0] == SLASH then key[1..] else key
    ensures var j := PointerJoin(base, key);
            |j| >= 1 && var parts := Split(j[1..]); |parts[|parts| - 1]| < |key|
  {
    hide Split;
    var j := PointerJoin(base, key);
    LastPartShort(k);
    if base == [] || base == [SLASH] {
      assert j[1..] == k;
    } else {
      var b := if base[|base| - 1] == SLASH then base[..|base| - 1] else base;
      assert j[1..] == b[1..] + [SLASH] + k;
      SplitLastPart(b[1..], k);
    }
  }

  /**
   What the text of a base and a key must be like for pointerJoin to name "the key below the base": no slash and
   no escape sequence in the key, an absolute base, and no slash that an empty key or the base's end would add.
   */
  predicate NamesMember(base: bytes, key: bytes) {
    && (base == [] || base[0] == SLASH) && SLASH !in key && !HasEscape(key)
    && if base == [] || base == [SLASH] then key != [] else base[|base| - 1] != SLASH
  }

  /** Joining a key to a base path names the key below the base if and only if their text allows it. */
  lemma JoinAppendsKey(base: bytes, key: bytes)
    ensures Tokens(base).Some? && Tokens(PointerJoin(base, key)) == Some(Tokens(base).value + [key])
       <==> NamesMember(base, key)
  {
    hide UnescapeToken, HasEscape;
    if Tokens(base).Some? {
      EscapeFreeExactly(key);
      if SLASH in key {
        SlashedKeyIsCut(base, key);
      } else {
        JoinTokens(base, key);
        LastDecides(Tokens(base).value, UnescapeToken(key), key);
      }
    }
  }

  lemma LastDecides(tokens: seq<Token>, x: Token, key: Token)
    ensures tokens + [x] == tokens + [key] <==> x == key
    ensures |tokens| > 0 ==> tokens[..|tokens| - 1] + [x] != tokens + [key]
    ensures tokens == [] ==> ([x] == tokens + [key] <==> x == key)
  {
    assert [x][0] == x;
    assert (tokens + [x])[|tokens|] == x && (tokens + [key])[|tokens|] == key;
    assert |tokens| > 0 ==> |tokens[..|tokens| - 1] + [x]| == |tokens|;
  }

  /** The tokens of a joined path, for a key without a slash. */
  lemma JoinTokens(base: bytes, key: bytes)
    requires SLASH !in key && (base == [] || base[0] == SLASH)
    ensures
      var tokens, last := Tokens(base).value, UnescapeToken(key);
      Tokens(PointerJoin(base, key)) == Some(
        if base == [] || base == [SLASH] then (if key == [] then [] else [last])
        else if base[|base| - 1] == SLASH then tokens[..|tokens| - 1] + [last]
        else tokens + [last])
    ensures base != [] && base != [SLASH] ==> |Tokens(base).value| > 0
    ensures base != [] && base != [SLASH] && base[|base| - 1] == SLASH ==>
      Tokens(base).value[|Tokens(base).value| - 1] == []
  {
    var j := PointerJoin(base, key);
    if base == [] || base == [SLASH] {
      assert j == [SLASH] + key && j[1..] == key;
      SplitPart(key);
      assert key != [] ==> UnescapeAll([key]) == [UnescapeToken(key)];
    } else if base[|base| - 1] == SLASH {
      var b := base[..|base| - 1];
      assert base == b + [SLASH];
      assert j[1..] == b[1..] + [SLASH] + key;
      SplitLast(b[1..], key);
      assert base[1..] == b[1..] + [SLASH] + [];
      SplitLast(b[1..], []);
      assert |j| >= 2;
      var parts := Split(b[1..]);
      assert UnescapeAll(parts + [key]) == UnescapeAll(parts) + [UnescapeToken(key)];
      assert UnescapeAll(parts + [[]]) == UnescapeAll(parts) + [UnescapeToken([])];
      assert UnescapeToken([]) == [];
      assert Tokens(base).value[..|Tokens(base).value| - 1] == UnescapeAll(parts);
    } else {
      assert j[1..] == base[1..] + [SLASH] + key;
      SplitLast(base[1..], key);
      assert |j| >= 2;
      var parts := Split(base[1..]);
      assert UnescapeAll(parts + [key]) == UnescapeAll(parts) + [UnescapeToken(key)];
    }
  }

  // ----- lookup -----

  /** The element a token selects in an array, if it is in range. */
  function ArrayIndex(t: Token, length: nat): (r: Option<nat>)
    ensures r.Some? ==> r.value < length
  {
    match ParseInt(t)
    case Some(i) => if 0 <= i < length then Some(i) else None
    case None => None
  }

  function Child(cur: Doc, t: Token): Option<Doc> {
    match cur
    case Obj(fields) => if t in fields then Some(fields[t]) else None
    case Arr(items) =>
      (match ArrayIndex(t, |items|)
       case Some(i) => Some(items[i])
       case None => None)
    case _ => None
  }

  /** The value at a token path. */
  function Get(doc: Doc, tokens: seq<Token>): Option<Doc> {
    if tokens == [] then Some(doc) else
    match Child(doc, tokens[0])
    case Some(n) => Get(n, tokens[1..])
    case None => None
  }

  /** `pointerGet` */
  function PointerGet(doc: Doc, ptr: bytes): Option<Doc> {
    match Tokens(ptr)
    case Some(tokens) => Get(doc, tokens)
    case None => None
  }

  /** The loop of pointerGet, which walks down with a current node. */
  method ComputeGet(doc: Doc, ptr: bytes) returns (r: Option<Doc>)
    ensures r == PointerGet(doc, ptr)
  {
    var tokens := Tokens(ptr);
    if tokens.None? {
      return None;
    }
    var cur := doc;
    for i := 0 to |tokens.value|
      invariant Get(doc, tokens.value) == Get(cur, tokens.value[i..])
    {
      assert tokens.value[i..][1..] == tokens.value[i + 1..];
      var next := Child(cur, tokens.value[i]);
      if next.None? {
        return None;
      }
      cur := next.value;
    }
    return Some(cur);
  }

  lemma {:induction false} GetConcat(doc: Doc, p: seq<Token>, q: seq<Token>)
    ensures Get(doc, p + q) == match Get(doc, p) case Some(n) => Get(n, q) case None => None
  {
    if p == [] {
      assert p + q == q;
    } else {
      assert (p + q)[1..] == p[1..] + q;
      if Child(doc, p[0]).Some? {
        GetConcat(Child(doc, p[0]).value, p[1..], q);
      }
    }
  }
}
