/** JSON Pointers (RFC 6901): the two notations, plain and as a URI fragment, read into
    tokens and written again. */
module JsonPointer {
  import opened Words
  import opened JsonText
  import opened JsonString
  import Utf8
  import W = JsonWriter

  const TILDE: byte := 0x7E
  const HASH: byte := 0x23
  const PERCENT: byte := 0x25
  const ONE: byte := 0x31
  const INVALID_INDEX := TWO_32 - 1

  /** `NeedPercentEncode`: all but the unreserved characters of section 2.3 of RFC 3986. */
  predicate NeedPercentEncode(c: byte) {
    !(IsDigit(c) || 0x41 <= c <= 0x5A || 0x61 <= c <= 0x7A || c == MINUS || c == DOT || c == 0x5F || c == TILDE)
  }

  // ---------- Tokens

  /** A token, and what lies in the buffer between the name that it keeps and a zero byte. */
  datatype Token = Token(name: seq<byte>, index: nat, behind: seq<byte>)

  /** `operator==` on tokens and pointers: lengths, names and indices. */
  predicate SameToken(t: Token, u: Token) {
    t.name == u.name && t.index == u.index
  }

  predicate SamePointer(p: seq<Token>, q: seq<Token>) {
    |p| == |q| && forall k :: 0 <= k < |p| ==> SameToken(p[k], q[k])
  }

  /** The name as it lies in the buffer. */
  function Full(t: Token): seq<byte> {
    t.name + t.behind
  }

  /** The digits of a name as a 32-bit number, unless a step is seen to overflow. */
  function Number(name: seq<byte>): (r: Option<nat>)
    requires forall k :: 0 <= k < |name| ==> IsDigit(name[k])
    ensures r.Some? ==> r.value < TWO_32
  {
    if name == [] then Some(0)
    else
      var last := |name| - 1;
      match Number(name[..last])
      case None => None
      case Some(n) =>
        var m := (n * 10 + (name[last] - ZERO)) % TWO_32;
        if m < n then None else Some(m)
  }

  predicate AllDigits(name: seq<byte>) {
    forall k :: 0 <= k < |name| ==> IsDigit(name[k])
  }

  /** The part of a name that its token keeps: the length of a token has 32 bits. */
  function Kept(name: seq<byte>): (r: seq<byte>)
    ensures |r| == |name| % TWO_32 && r <= name && (|name| < TWO_32 ==> r == name)
  {
    name[..|name| % TWO_32]
  }

  /** The array index that a name stands for, if all of it is digits and what is kept of it
      looks like a number. */
  function IndexOf(name: seq<byte>): nat {
    var kept := Kept(name);
    if kept == [] || !AllDigits(name) || (|kept| > 1 && kept[0] == ZERO) then INVALID_INDEX
    else
      match Number(kept)
      case None => INVALID_INDEX
      case Some(n) => n
  }

  function TokenOf(name: seq<byte>): (t: Token)
    ensures Full(t) == name
  {
    Token(Kept(name), IndexOf(name), name[|Kept(name)|..])
  }

  // ---------- Reading

  datatype ErrorCode = TokenMustBeginWithSolidus | InvalidEscape | InvalidPercentEncoding | CharacterMustPercentEncode

  /** A part of a name, or an error and where it is reported. */
  datatype Part = Part(next: nat, bytes: seq<byte>) | PartError(code: ErrorCode, offset: nat)

  /** The byte of a percent triplet. */
  function Triplet(s: seq<byte>, p: nat): (r: Option<byte>)
    ensures r.Some? ==> p + 3 <= |s|
  {
    if Peek(s, p) != PERCENT || p + 3 > |s| then None
    else
      var h, l := HexValue(s[p + 1]), HexValue(s[p + 2]);
      if h.Some? && l.Some? then Some(16 * h.value + l.value) else None
  }

  /** The bytes of all triplets that follow each other from `p` on. */
  function Triplets(s: seq<byte>, p: nat): (r: seq<byte>)
    ensures p + 3 * |r| <= |s| || r == []
    decreases |s| - p
  {
    match Triplet(s, p)
    case None => []
    case Some(c) => [c] + Triplets(s, p + 3)
  }

  /** The escape `~0` or `~1`, whose tilde has been read. */
  function Escape(s: seq<byte>, i: nat): Part {
    if Peek(s, i) == ZERO then Part(i + 1, [TILDE])
    else if Peek(s, i) == ONE then Part(i + 1, [SLASH])
    else PartError(InvalidEscape, i)
  }

  function Unescaped(s: seq<byte>, i: nat, c: byte): Part {
    if c == TILDE then Escape(s, i) else Part(i, [c])
  }

  /** A percent-encoded character: it has to be UTF-8. */
  function PercentPart(s: seq<byte>, i: nat): Part {
    var run := Triplets(s, i);
    var d := Utf8.Decode(run, 0);
    if run == [] || !d.ok || d.next > |run| then PartError(InvalidPercentEncoding, i)
    else if d.next == 1 then Unescaped(s, i + 3, run[0])
    else Part(i + 3 * d.next, run[..d.next])
  }

  /** One turn of the loop over a name. */
  function PartAt(s: seq<byte>, uri: bool, i: nat): (r: Part)
    requires i < |s|
    ensures r.Part? ==> i + |r.bytes| <= r.next <= |s| && i < r.next
  {
    if uri && s[i] == PERCENT then PercentPart(s, i)
    else if uri && NeedPercentEncode(s[i]) then PartError(CharacterMustPercentEncode, i)
    else Unescaped(s, i + 1, s[i])
  }

  function Before(bytes: seq<byte>, p: Part): Part {
    if p.Part? then Part(p.next, bytes + p.bytes) else p
  }

  /** A name, up to the next solidus or the end. */
  function NameAt(s: seq<byte>, uri: bool, i: nat): (r: Part)
    requires i <= |s|
    ensures r.Part? ==> i + |r.bytes| <= r.next <= |s| && (r.next == |s| || s[r.next] == SLASH)
    decreases |s| - i
  {
    if i == |s| || s[i] == SLASH then Part(i, [])
    else
      match PartAt(s, uri, i)
      case PartError(_, _) => PartAt(s, uri, i)
      case Part(next, bytes) => Before(bytes, NameAt(s, uri, next))
  }

  datatype Parsed = Pointer(tokens: seq<Token>) | ParseError(code: ErrorCode, offset: nat)

  function Prepend(t: Token, p: Parsed): Parsed {
    if p.Pointer? then Pointer([t] + p.tokens) else p
  }

  /** The tokens from `i` on, where a solidus or the end stands. */
  function TokensAt(s: seq<byte>, uri: bool, i: nat): Parsed
    requires i <= |s| && (i == |s| || s[i] == SLASH)
    decreases |s| - i
  {
    if i == |s| then Pointer([])
    else
      match NameAt(s, uri, i + 1)
      case PartError(code, offset) => ParseError(code, offset)
      case Part(next, name) => Prepend(TokenOf(name), TokensAt(s, uri, next))
  }

  /** `Parse`. */
  function Parse(s: seq<byte>): Parsed {
    var uri := Peek(s, 0) == HASH;
    var i := if uri then 1 else 0;
    if i != |s| && s[i] != SLASH then ParseError(TokenMustBeginWithSolidus, i) else TokensAt(s, uri, i)
  }

  // ---------- Writing

  function PlainByte(c: byte): (t: seq<byte>)
    ensures 1 <= |t| <= 2 && t[0] != SLASH
  {
    if c == TILDE then [TILDE, ZERO] else if c == SLASH then [TILDE, ONE] else [c]
  }

  function PlainName(name: seq<byte>): seq<byte> {
    if name == [] then [] else PlainByte(name[0]) + PlainName(name[1..])
  }

  /** The plain notation. */
  function Plain(tokens: seq<Token>): seq<byte> {
    if tokens == [] then [] else [SLASH] + PlainName(tokens[0].name) + Plain(tokens[1..])
  }

  function PercentBytes(b: seq<byte>): (t: seq<byte>)
    ensures |t| == 3 * |b|
  {
    if b == [] then [] else [PERCENT, W.HexDigit(b[0] / 16), W.HexDigit(b[0] % 16)] + PercentBytes(b[1..])
  }

  /** What a URI fragment has for the byte of a name, or the character that starts there. It is
      read from the buffer, whatever the length of the token. */
  function UriStep(name: seq<byte>, j: nat): (r: Step)
    requires j < |name|
    ensures r.Step? ==> j < r.next <= |name|
  {
    var c := name[j];
    if c == TILDE || c == SLASH || !NeedPercentEncode(c) then Step(j + 1, PlainByte(c))
    else
      Utf8.DecodeFollowsGrammar(name, j);
      var d := Utf8.Decode(name, j);
      if d.ok then Step(d.next, PercentBytes(name[j..d.next])) else Invalid
  }

  /** What a URI fragment has for a name from `j` on, of which `n` bytes are kept, and the
      place that is reached. */
  function UriName(name: seq<byte>, n: nat, j: nat): (r: Step)
    requires j <= |name| && n <= |name|
    ensures r.Step? ==> j <= r.next <= |name| && n <= r.next
    decreases |name| - j
  {
    if j >= n then Step(j, [])
    else
      match UriStep(name, j)
      case Invalid => Invalid
      case Step(next, text) => Ahead(text, UriName(name, n, next))
  }

  function UriOf(t: Token): (r: Step)
    ensures r.Step? ==> r.next <= |Full(t)|
  {
    UriName(Full(t), |t.name|, 0)
  }

  function Join(a: seq<byte>, b: Option<seq<byte>>): Option<seq<byte>> {
    if b.Some? then Some(a + b.value) else None
  }

  /** The tokens as a URI fragment, without its number sign. */
  function UriTokens(tokens: seq<Token>): Option<seq<byte>> {
    if tokens == [] then Some([])
    else
      match UriOf(tokens[0])
      case Invalid => None
      case Step(_, name) => Join([SLASH] + name, UriTokens(tokens[1..]))
  }

  function Uri(tokens: seq<Token>): Option<seq<byte>> {
    Join([HASH], UriTokens(tokens))
  }

  // ---------- Reading undoes writing: the plain notation

  /** The tokens that the names of some tokens stand for. */
  function Normal(tokens: seq<Token>): (r: seq<Token>)
    ensures |r| == |tokens| && forall k :: 0 <= k < |tokens| ==> r[k] == TokenOf(tokens[k].name)
  {
    if tokens == [] then [] else [TokenOf(tokens[0].name)] + Normal(tokens[1..])
  }

  /** Tokens whose length and index are those their name stands for. */
  predicate Consistent(tokens: seq<Token>) {
    forall k :: 0 <= k < |tokens| ==> SameToken(TokenOf(tokens[k].name), tokens[k])
  }

  /** What has been read is this pointer. */
  predicate ReadAs(r: Parsed, tokens: seq<Token>) {
    r.Pointer? && SamePointer(r.tokens, tokens)
  }

  lemma {:induction false} ConsistentIsNormal(tokens: seq<Token>)
    ensures Consistent(tokens) <==> SamePointer(Normal(tokens), tokens)
  {
    hide TokenOf, SameToken;
    if !Consistent(tokens) {
      var k :| 0 <= k < |tokens| && !SameToken(TokenOf(tokens[k].name), tokens[k]);
      assert !SameToken(Normal(tokens)[k], tokens[k]);
    }
  }

  /** A name ends here. */
  predicate NameEnds(s: seq<byte>, i: nat) {
    i == |s| || (i < |s| && s[i] == SLASH)
  }

  lemma FirstIs(s: seq<byte>, i: nat, t: seq<byte>)
    requires Occurs(s, i, t) && |t| >= 1
    ensures i < |s| && s[i] == t[0]
    ensures |t| >= 2 ==> i + 1 < |s| && s[i + 1] == t[1]
  {
    assert s[i] == s[i..i + |t|][0];
    if |t| >= 2 {
      assert s[i + 1] == s[i..i + |t|][1];
    }
  }

  lemma PlainByteReadsBack(s: seq<byte>, i: nat, c: byte)
    requires Occurs(s, i, PlainByte(c))
    ensures i < |s| && s[i] == PlainByte(c)[0] != SLASH
    ensures Unescaped(s, i + 1, s[i]) == Part(i + |PlainByte(c)|, [c])
  {
    FirstIs(s, i, PlainByte(c));
  }

  lemma {:induction false} PlainNameReadsBack(s: seq<byte>, i: nat, name: seq<byte>)
    requires Occurs(s, i, PlainName(name)) && NameEnds(s, i + |PlainName(name)|)
    ensures NameAt(s, false, i) == Part(i + |PlainName(name)|, name)
    decreases |name|
  {
    hide PlainByte, Unescaped, Occurs;
    if name != [] {
      var b := PlainByte(name[0]);
      OccursSplit(s, i, b, PlainName(name[1..]));
      PlainByteReadsBack(s, i, name[0]);
      PlainNameReadsBack(s, i + |b|, name[1..]);
      assert [name[0]] + name[1..] == name;
    }
  }

  lemma {:induction false} TokensEnd(s: seq<byte>, i: nat, tokens: seq<Token>)
    requires Occurs(s, i, Plain(tokens)) && i + |Plain(tokens)| == |s|
    ensures NameEnds(s, i)
  {
    hide PlainName;
    if tokens != [] {
      FirstIs(s, i, Plain(tokens));
    }
  }

  lemma {:induction false} PlainTokensReadBack(s: seq<byte>, i: nat, tokens: seq<Token>)
    requires Occurs(s, i, Plain(tokens)) && i + |Plain(tokens)| == |s|
    ensures NameEnds(s, i) && TokensAt(s, false, i) == Pointer(Normal(tokens))
    decreases |tokens|
  {
    hide NameAt, PlainName, Occurs, TokenOf;
    TokensEnd(s, i, tokens);
    if tokens != [] {
      var name, rest := tokens[0].name, tokens[1..];
      assert Plain(tokens) == [SLASH] + (PlainName(name) + Plain(rest));
      OccursSplit(s, i, [SLASH], PlainName(name) + Plain(rest));
      OccursSplit(s, i + 1, PlainName(name), Plain(rest));
      var p := i + 1 + |PlainName(name)|;
      PlainTokensReadBack(s, p, rest);
      PlainNameReadsBack(s, i + 1, name);
      FirstIs(s, i, [SLASH]);
    }
  }

  /** The plain notation of any pointer is read back as the pointer that its names stand for,
      which is that pointer exactly if its tokens are consistent. */
  lemma {:induction false} PlainReadsBack(tokens: seq<Token>)
    ensures Parse(Plain(tokens)) == Pointer(Normal(tokens))
    ensures ReadAs(Parse(Plain(tokens)), tokens) <==> Consistent(tokens)
  {
    hide TokensAt, PlainName, Normal, Consistent, SamePointer;
    ConsistentIsNormal(tokens);
    var s := Plain(tokens);
    assert s + [] == s;
    OccursParts(s, []);
    PlainTokensReadBack(s, 0, tokens);
  }

  lemma {:induction false} PlainPart(s: seq<byte>, i: nat)
    requires i < |s| && s[i] != SLASH && PartAt(s, false, i).Part?
    ensures var p := PartAt(s, false, i);
            && |p.bytes| == 1 && Occurs(s, i, PlainByte(p.bytes[0]))
            && p.next == i + |PlainByte(p.bytes[0])|
  {
    if s[i] == TILDE {
      OccursTwo(s, i);
    } else {
      OccursByte(s, i);
    }
  }

  lemma {:induction false} PlainNameIsText(s: seq<byte>, i: nat)
    requires i <= |s| && NameAt(s, false, i).Part?
    ensures var p := NameAt(s, false, i); Occurs(s, i, PlainName(p.bytes)) && p.next == i + |PlainName(p.bytes)|
    decreases |s| - i
  {
    hide PartAt, PlainByte, Occurs;
    if i == |s| || s[i] == SLASH {
      OccursEmpty(s, i);
    } else {
      PlainPart(s, i);
      var p := PartAt(s, false, i);
      PlainNameIsText(s, p.next);
      var rest := NameAt(s, false, p.next).bytes;
      assert (p.bytes + rest)[0] == p.bytes[0] && (p.bytes + rest)[1..] == rest;
      OccursJoin(s, i, PlainByte(p.bytes[0]), PlainName(rest));
    }
  }

  lemma OccursEmpty(s: seq<byte>, i: nat)
    requires i <= |s|
    ensures Occurs(s, i, [])
  {
  }

  /** The plain notation of tokens with all of their names. */
  function WholePlain(tokens: seq<Token>): seq<byte> {
    if tokens == [] then [] else [SLASH] + (PlainName(Full(tokens[0])) + WholePlain(tokens[1..]))
  }

  lemma {:induction false} PlainTokensAreText(s: seq<byte>, i: nat)
    requires i <= |s| && NameEnds(s, i) && TokensAt(s, false, i).Pointer?
    ensures Occurs(s, i, WholePlain(TokensAt(s, false, i).tokens))
    ensures i + |WholePlain(TokensAt(s, false, i).tokens)| == |s|
    decreases |s| - i
  {
    hide NameAt, PlainName, Occurs, IndexOf, Full;
    OccursEmpty(s, i);
    if i < |s| {
      var p := NameAt(s, false, i + 1);
      PlainNameIsText(s, i + 1);
      PlainTokensAreText(s, p.next);
      var rest := TokensAt(s, false, p.next).tokens;
      assert TokensAt(s, false, i).tokens[1..] == rest;
      OccursByte(s, i);
      OccursJoin(s, i + 1, PlainName(p.bytes), WholePlain(rest));
      OccursJoin(s, i, [SLASH], PlainName(p.bytes) + WholePlain(rest));
    }
  }

  /** A text that is accepted in the plain notation is that of its tokens, so that no two texts
      are read as the same names. */
  lemma {:induction false} PlainIsTheText(s: seq<byte>)
    requires Parse(s).Pointer? && Peek(s, 0) != HASH
    ensures WholePlain(Parse(s).tokens) == s
  {
    hide TokensAt;
    PlainTokensAreText(s, 0);
    assert s[0..|s|] == s;
  }

  // ---------- Reading undoes writing: the URI fragment

  lemma TripletReadsBack(s: seq<byte>, i: nat, c: byte)
    requires Occurs(s, i, [PERCENT, W.HexDigit(c / 16), W.HexDigit(c % 16)])
    ensures Triplet(s, i) == Some(c)
  {
    var t := [PERCENT, W.HexDigit(c / 16), W.HexDigit(c % 16)];
    assert s[i..i + 3] == t;
    assert s[i] == t[0] && s[i + 1] == t[1] && s[i + 2] == t[2];
  }

  lemma {:induction false} TripletsReadBack(s: seq<byte>, i: nat, b: seq<byte>)
    requires Occurs(s, i, PercentBytes(b))
    ensures |b| <= |Triplets(s, i)| && Triplets(s, i)[..|b|] == b
    decreases |b|
  {
    hide Triplet, Occurs;
    if b != [] {
      var t := [PERCENT, W.HexDigit(b[0] / 16), W.HexDigit(b[0] % 16)];
      OccursSplit(s, i, t, PercentBytes(b[1..]));
      TripletReadsBack(s, i, b[0]);
      TripletsReadBack(s, i + 3, b[1..]);
      assert [b[0]] + b[1..] == b;
    }
  }

  lemma {:induction false} PercentReadsBack(s: seq<byte>, i: nat, b: seq<byte>)
    requires Utf8.Char(b) && b != [TILDE] && Occurs(s, i, PercentBytes(b))
    ensures PercentPart(s, i) == Part(i + 3 * |b|, b)
  {
    hide Triplets, PercentBytes, Utf8.Decode, Occurs;
    TripletsReadBack(s, i, b);
    var run := Triplets(s, i);
    assert run[0..0 + |b|] == b;
    Utf8.DecodeFollowsGrammar(run, 0);
    assert Utf8.CharAt(run, 0, |b|);
    if |b| == 1 {
      assert run[0] == b[0] && b == [b[0]];
    }
  }

  lemma PlainIsUnreserved(c: byte)
    requires c == TILDE || c == SLASH || !NeedPercentEncode(c)
    ensures !NeedPercentEncode(PlainByte(c)[0])
  {
  }

  lemma {:induction false} UriStepReadsBack(s: seq<byte>, i: nat, name: seq<byte>, j: nat)
    requires j < |name| && UriStep(name, j).Step? && Occurs(s, i, UriStep(name, j).text)
    ensures i < |s| && s[i] != SLASH
    ensures PartAt(s, true, i) == Part(i + |UriStep(name, j).text|, name[j..UriStep(name, j).next])
  {
    hide Utf8.Decode, PercentPart, Unescaped, Occurs, PlainByte, PercentBytes;
    var r, c := UriStep(name, j), name[j];
    if c == TILDE || c == SLASH || !NeedPercentEncode(c) {
      PlainByteReadsBack(s, i, c);
      PlainIsUnreserved(c);
    } else {
      Utf8.DecodeFollowsGrammar(name, j);
      var b := name[j..r.next];
      PercentFirst(b);
      FirstIs(s, i, PercentBytes(b));
      PercentReadsBack(s, i, b);
    }
  }

  lemma {:induction false} PercentFirst(b: seq<byte>)
    requires b != []
    ensures |PercentBytes(b)| >= 1 && PercentBytes(b)[0] == PERCENT
  {
  }

  lemma {:induction false} UriNameReadsBack(s: seq<byte>, i: nat, name: seq<byte>, n: nat, j: nat)
    requires j <= |name| && n <= |name| && UriName(name, n, j).Step? && Occurs(s, i, UriName(name, n, j).text)
    requires NameEnds(s, i + |UriName(name, n, j).text|)
    ensures NameAt(s, true, i) == Part(i + |UriName(name, n, j).text|, name[j..UriName(name, n, j).next])
    decreases |name| - j
  {
    hide UriStep, PartAt, Occurs;
    if j < n {
      var r := UriStep(name, j);
      var rest := UriName(name, n, r.next);
      OccursSplit(s, i, r.text, rest.text);
      UriStepReadsBack(s, i, name, j);
      UriNameReadsBack(s, i + |r.text|, name, n, r.next);
      assert name[j..r.next] + name[r.next..rest.next] == name[j..rest.next];
    }
  }

  /** What the fragment of a token stands for: its name, with the rest of a character in which
      the name ends. */
  function Covered(t: Token): seq<byte>
    requires UriOf(t).Step?
  {
    Full(t)[..UriOf(t).next]
  }

  function CoveredTokens(tokens: seq<Token>): (r: seq<Token>)
    requires UriTokens(tokens).Some?
    ensures |r| == |tokens|
    ensures forall k :: 0 <= k < |tokens| ==> UriOf(tokens[k]).Step? && r[k] == TokenOf(Covered(tokens[k]))
  {
    if tokens == [] then [] else [TokenOf(Covered(tokens[0]))] + CoveredTokens(tokens[1..])
  }

  lemma {:induction false} UriTokensEnd(s: seq<byte>, i: nat, tokens: seq<Token>)
    requires UriTokens(tokens).Some? && Occurs(s, i, UriTokens(tokens).value) && i + |UriTokens(tokens).value| == |s|
    ensures NameEnds(s, i)
  {
    hide UriOf;
    if tokens != [] {
      FirstIs(s, i, UriTokens(tokens).value);
    }
  }

  lemma {:induction false} UriTokensParts(tokens: seq<Token>)
    requires UriTokens(tokens).Some?
    ensures tokens == [] ==> UriTokens(tokens).value == []
    ensures tokens != [] ==>
              && UriOf(tokens[0]).Step? && UriTokens(tokens[1..]).Some?
              && UriTokens(tokens).value == [SLASH] + (UriOf(tokens[0]).text + UriTokens(tokens[1..]).value)
              && CoveredTokens(tokens) == [TokenOf(Covered(tokens[0]))] + CoveredTokens(tokens[1..])
  {
    hide UriOf, Covered, TokenOf;
  }

  lemma {:induction false} UnfoldTokens(s: seq<byte>, uri: bool, i: nat)
    requires i <= |s| && NameEnds(s, i)
    ensures TokensAt(s, uri, i) ==
            if i == |s| then Pointer([])
            else
              match NameAt(s, uri, i + 1)
              case PartError(code, offset) => ParseError(code, offset)
              case Part(next, name) => Prepend(TokenOf(name), TokensAt(s, uri, next))
  {
    hide NameAt, TokenOf;
  }

  lemma {:induction false} UriTokensReadBack(s: seq<byte>, i: nat, tokens: seq<Token>)
    requires UriTokens(tokens).Some?
    requires Occurs(s, i, UriTokens(tokens).value) && i + |UriTokens(tokens).value| == |s|
    ensures NameEnds(s, i) && TokensAt(s, true, i) == Pointer(CoveredTokens(tokens))
    decreases |tokens|
  {
    hide NameAt, UriName, UriTokens, Occurs, TokenOf, TokensAt, CoveredTokens;
    UriTokensEnd(s, i, tokens);
    UriTokensParts(tokens);
    UnfoldTokens(s, true, i);
    if tokens != [] {
      var name, rest := UriOf(tokens[0]).text, UriTokens(tokens[1..]).value;
      OccursSplit(s, i, [SLASH], name + rest);
      OccursSplit(s, i + 1, name, rest);
      UriTokensReadBack(s, i + 1 + |name|, tokens[1..]);
      UriNameReadsBack(s, i + 1, Full(tokens[0]), |tokens[0].name|, 0);
      FirstIs(s, i, [SLASH]);
    }
  }

  // ---------- Characters and the end of a name

  /** A fragment is written as far as there are characters. */
  lemma {:induction false} UriNameReaches(name: seq<byte>, n: nat, j: nat)
    requires j <= |name| && n <= |name|
    ensures UriName(name, n, j).Step? <==> Utf8.Reached(name, n, j).Some?
    ensures UriName(name, n, j).Step? ==> UriName(name, n, j).next == Utf8.Reached(name, n, j).value
    decreases |name| - j
  {
    hide PlainByte, PercentBytes, Utf8.Decode, Utf8.CharAt;
    if j < n {
      Utf8.DecodeParts(name, j);
      Utf8.DecodeIsChar(name, j);
      if UriStep(name, j).Step? {
        UriNameReaches(name, n, UriStep(name, j).next);
      }
    }
  }

  predicate AllWellFormed(tokens: seq<Token>) {
    forall k :: 0 <= k < |tokens| ==> Utf8.WellFormed(tokens[k].name, 0)
  }

  lemma {:induction false} WellFormedIsCovered(t: Token)
    ensures Utf8.WellFormed(t.name, 0) <==> UriOf(t).Step? && UriOf(t).next == |t.name|
    ensures UriOf(t).Step? ==> |t.name| <= UriOf(t).next <= |t.name| + 3
  {
    hide UriName, Utf8.WellFormed, Utf8.Reached;
    UriNameReaches(Full(t), |t.name|, 0);
    Utf8.ReachedStops(Full(t), |t.name|, 0);
    assert Full(t)[..|t.name|] == t.name;
  }

  /** What the fragment of a token stands for is that token exactly if the token is consistent
      and does not end inside a character. */
  lemma {:induction false} CoveredIsSame(t: Token)
    requires UriOf(t).Step?
    ensures SameToken(TokenOf(Covered(t)), t) <==> SameToken(TokenOf(t.name), t) && Utf8.WellFormed(t.name, 0)
  {
    hide UriOf, Utf8.WellFormed, IndexOf;
    WellFormedIsCovered(t);
    var end := UriOf(t).next;
    if end == |t.name| {
      assert Covered(t) == t.name;
    } else {
      assert |Kept(Covered(t))| == end % TWO_32 != |t.name|;
    }
  }

  lemma {:induction false} CoveredIsPointer(tokens: seq<Token>)
    requires UriTokens(tokens).Some?
    ensures SamePointer(CoveredTokens(tokens), tokens) <==> Consistent(tokens) && AllWellFormed(tokens)
  {
    hide UriTokens, UriOf, Utf8.WellFormed, TokenOf, SameToken, Covered;
    var r := CoveredTokens(tokens);
    forall k | 0 <= k < |tokens|
      ensures SameToken(r[k], tokens[k]) <==>
              SameToken(TokenOf(tokens[k].name), tokens[k]) && Utf8.WellFormed(tokens[k].name, 0)
    {
      CoveredIsSame(tokens[k]);
    }
  }

  /** The URI fragment of a pointer, where it can be written, is read back as the pointer that
      it stands for, which is that pointer exactly if its tokens are consistent and none ends
      inside a character. */
  lemma {:induction false} UriReadsBack(tokens: seq<Token>)
    requires Uri(tokens).Some?
    ensures Parse(Uri(tokens).value) == Pointer(CoveredTokens(tokens))
    ensures ReadAs(Parse(Uri(tokens).value), tokens) <==> Consistent(tokens) && AllWellFormed(tokens)
  {
    hide TokensAt, UriTokens, CoveredTokens, Consistent, AllWellFormed, SamePointer;
    CoveredIsPointer(tokens);
    var body := UriTokens(tokens).value;
    OccursParts([HASH], body);
    UriTokensReadBack([HASH] + body, 1, tokens);
  }

  // ---------- What is read

  lemma {:induction false} TokensConsistent(s: seq<byte>, uri: bool, i: nat)
    requires i <= |s| < TWO_32 && NameEnds(s, i) && TokensAt(s, uri, i).Pointer?
    ensures Consistent(TokensAt(s, uri, i).tokens) && NothingBehind(TokensAt(s, uri, i).tokens)
    decreases |s| - i
  {
    hide NameAt, IndexOf;
    if i < |s| {
      TokensConsistent(s, uri, NameAt(s, uri, i + 1).next);
    }
  }

  /** Whatever has been parsed survives being written and parsed again: in the plain notation
      exactly if its tokens are consistent, and as a URI fragment exactly if, besides, what is
      kept of every name is well-formed. Tokens are consistent, and nothing is cut off, if the
      text is shorter than 2^32 bytes. */
  lemma {:induction false} ParsedSurvives(s: seq<byte>)
    requires Parse(s).Pointer?
    ensures ReadAs(Parse(Plain(Parse(s).tokens)), Parse(s).tokens) <==> Consistent(Parse(s).tokens)
    ensures Uri(Parse(s).tokens).Some? && ReadAs(Parse(Uri(Parse(s).tokens).value), Parse(s).tokens) <==>
            Consistent(Parse(s).tokens) && AllWellFormed(Parse(s).tokens)
    ensures |s| < TWO_32 ==>
              && Consistent(Parse(s).tokens)
              && (Uri(Parse(s).tokens).Some? <==> AllWellFormed(Parse(s).tokens))
  {
    hide TokensAt, Plain, Uri, Parse, Consistent, AllWellFormed, ReadAs;
    var tokens := Parse(s).tokens;
    PlainReadsBack(tokens);
    UriIffReaches(tokens);
    if Uri(tokens).Some? {
      UriReadsBack(tokens);
    }
    if |s| < TWO_32 {
      ParsedConsistent(s);
    }
  }

  lemma {:induction false} ParsedConsistent(s: seq<byte>)
    requires Parse(s).Pointer? && |s| < TWO_32
    ensures Consistent(Parse(s).tokens) && NothingBehind(Parse(s).tokens)
  {
    hide TokensAt, Consistent, NothingBehind;
    var uri := Peek(s, 0) == HASH;
    TokensConsistent(s, uri, if uri then 1 else 0);
  }

  /** A name of 2^32 + 1 bytes, a digit and then letters: the token keeps the digit, but is no
      index, and its text would be read as one. */
  lemma {:induction false} LongNameDoesNotSurvive(name: seq<byte>)
    requires |name| == TWO_32 + 1 && name[0] == ONE && !IsDigit(name[1])
    ensures var t := TokenOf(name);
            && t.name == [ONE] && t.index == INVALID_INDEX
            && !Consistent([t])
            && !ReadAs(Parse(Plain([t])), [t])
  {
    var t := TokenOf(name);
    assert Kept(name) == [ONE];
    OneIsIndex();
    assert [t][0] == t && TokenOf(t.name).index == 1;
    PlainReadsBack([t]);
  }

  lemma {:induction false} OneIsIndex()
    ensures IndexOf([ONE]) == 1
  {
    assert [ONE][..0] == [];
    assert Number([ONE]) == Some(1);
  }

  // ---------- Which pointers can be written as URI fragments

  /** Tokens that keep all of their names. */
  predicate NothingBehind(tokens: seq<Token>) {
    forall k :: 0 <= k < |tokens| ==> tokens[k].behind == []
  }

  predicate AllReach(tokens: seq<Token>) {
    forall k :: 0 <= k < |tokens| ==> Utf8.Reaches(Full(tokens[k]), |tokens[k].name|, 0)
  }

  lemma {:induction false} UriIffEach(tokens: seq<Token>)
    ensures Uri(tokens).Some? <==> forall k :: 0 <= k < |tokens| ==> UriOf(tokens[k]).Step?
    decreases |tokens|
  {
    hide UriOf;
    if tokens != [] {
      UriIffEach(tokens[1..]);
      assert forall k :: 1 <= k < |tokens| ==> tokens[k] == tokens[1..][k - 1];
    }
  }

  /** A pointer has a URI fragment exactly if from the start of each name there are characters
      that reach the end of what is kept of it; so if all that is kept is well-formed, and only
      then where nothing is cut off. */
  lemma {:induction false} UriIffReaches(tokens: seq<Token>)
    ensures Uri(tokens).Some? <==> AllReach(tokens)
    ensures AllWellFormed(tokens) ==> Uri(tokens).Some?
    ensures NothingBehind(tokens) && Uri(tokens).Some? ==> AllWellFormed(tokens)
  {
    hide Uri, UriOf, Utf8.WellFormed, Utf8.Reaches, Full;
    UriIffEach(tokens);
    forall k | 0 <= k < |tokens|
      ensures UriOf(tokens[k]).Step? <==> Utf8.Reaches(Full(tokens[k]), |tokens[k].name|, 0)
      ensures Utf8.WellFormed(tokens[k].name, 0) ==> UriOf(tokens[k]).Step?
      ensures UriOf(tokens[k]).Step? && tokens[k].behind == [] ==> Utf8.WellFormed(tokens[k].name, 0)
    {
      WellFormedIsCovered(tokens[k]);
      TokenReaches(tokens[k]);
    }
  }

  lemma {:induction false} TokenReaches(t: Token)
    ensures UriOf(t).Step? <==> Utf8.Reaches(Full(t), |t.name|, 0)
    ensures UriOf(t).Step? && t.behind == [] ==> UriOf(t).next == |t.name|
  {
    hide UriName, Utf8.Reaches, Utf8.Reached;
    UriNameReaches(Full(t), |t.name|, 0);
    Utf8.ReachedIffReaches(Full(t), |t.name|, 0);
  }

  lemma {:induction false} PartIsChar(s: seq<byte>, i: nat)
    requires i < |s| && PartAt(s, true, i).Part?
    ensures Utf8.Char(PartAt(s, true, i).bytes)
  {
    hide Triplets, Utf8.Decode;
    if s[i] == PERCENT {
      var run := Triplets(s, i);
      if run != [] {
        Utf8.DecodeFollowsGrammar(run, 0);
        assert Utf8.Decode(run, 0).ok ==> Utf8.Char(run[0..Utf8.Decode(run, 0).next]);
      }
    }
  }

  lemma {:induction false} WellFormedShifted(a: seq<byte>, b: seq<byte>, i: nat)
    requires i <= |b| && Utf8.WellFormed(b, i)
    ensures Utf8.WellFormed(a + b, |a| + i)
    decreases |b| - i
  {
    hide Utf8.Char;
    if i < |b| {
      var n :| 1 <= n <= 4 && Utf8.CharAt(b, i, n) && Utf8.WellFormed(b, i + n);
      WellFormedShifted(a, b, i + n);
      assert (a + b)[|a| + i..|a| + i + n] == b[i..i + n];
      assert Utf8.CharAt(a + b, |a| + i, n) && Utf8.WellFormed(a + b, |a| + i + n);
    }
  }

  lemma {:induction false} CharThenWellFormed(a: seq<byte>, b: seq<byte>)
    requires Utf8.Char(a) && Utf8.WellFormed(b, 0)
    ensures Utf8.WellFormed(a + b, 0)
  {
    WellFormedShifted(a, b, 0);
    hide Utf8.Char;
    var n := |a|;
    assert (a + b)[0..0 + n] == a;
    assert Utf8.CharAt(a + b, 0, n);
    assert 1 <= n <= 4 by { CharSize(a); }
  }

  lemma CharSize(a: seq<byte>)
    requires Utf8.Char(a)
    ensures 1 <= |a| <= 4
  {
  }

  lemma {:induction false} FragmentNameWellFormed(s: seq<byte>, i: nat)
    requires i <= |s| && NameAt(s, true, i).Part?
    ensures Utf8.WellFormed(NameAt(s, true, i).bytes, 0)
    decreases |s| - i
  {
    hide PartAt, Utf8.Char;
    if i < |s| && s[i] != SLASH {
      PartIsChar(s, i);
      var p := PartAt(s, true, i);
      FragmentNameWellFormed(s, p.next);
      CharThenWellFormed(p.bytes, NameAt(s, true, p.next).bytes);
    }
  }

  lemma {:induction false} FragmentTokensReach(s: seq<byte>, i: nat)
    requires i <= |s| && NameEnds(s, i) && TokensAt(s, true, i).Pointer?
    ensures AllReach(TokensAt(s, true, i).tokens)
    decreases |s| - i
  {
    hide NameAt, IndexOf, Utf8.WellFormed, Utf8.Reaches, Full;
    if i < |s| {
      var name := NameAt(s, true, i + 1).bytes;
      FragmentNameWellFormed(s, i + 1);
      Utf8.WellFormedReaches(name, |Kept(name)|, 0);
      FragmentTokensReach(s, NameAt(s, true, i + 1).next);
    }
  }

  /** A pointer that was parsed from a URI fragment can be written as one again. It is read back
      from that exactly if it is consistent and no name was cut inside a character, and so if
      the text is shorter than 2^32 bytes. */
  lemma {:induction false} FragmentsCanBeWritten(s: seq<byte>)
    requires Peek(s, 0) == HASH && Parse(s).Pointer?
    ensures Uri(Parse(s).tokens).Some?
    ensures ReadAs(Parse(Uri(Parse(s).tokens).value), Parse(s).tokens) <==>
            Consistent(Parse(s).tokens) && AllWellFormed(Parse(s).tokens)
    ensures |s| < TWO_32 ==> Consistent(Parse(s).tokens) && AllWellFormed(Parse(s).tokens)
  {
    hide TokensAt, Uri, Consistent, AllReach, AllWellFormed, ReadAs;
    FragmentTokensReach(s, 1);
    UriIffReaches(Parse(s).tokens);
    ParsedSurvives(s);
  }

  // ---------- A name cut inside a character

  /** A name of 2^32 + 1 bytes that begins with a character of two: the token keeps the first of
      them and is consistent, its fragment stands for both, and another pointer is read. */
  lemma {:induction false} CutCharacterDoesNotSurvive(name: seq<byte>)
    requires |name| == TWO_32 + 1 && name[0] == 0xC3 && name[1] == 0xA9
    ensures var t := TokenOf(name);
            && t.name == [0xC3] && Consistent([t]) && ReadAs(Parse(Plain([t])), [t])
            && Uri([t]) == Some([HASH, SLASH] + PercentBytes([0xC3, 0xA9]))
            && ReadAs(Parse(Uri([t]).value), [TokenOf([0xC3, 0xA9])])
            && !ReadAs(Parse(Uri([t]).value), [t])
  {
    hide TokenOf, UriOf, Covered, PercentBytes, UriTokens, Parse, Plain, CoveredTokens;
    var t := TokenOf(name);
    var tokens := [t];
    CutToken(name);
    UriOne(t);
    assert [HASH] + ([SLASH] + UriOf(t).text) == [HASH, SLASH] + UriOf(t).text;
    PlainReadsBack(tokens);
    UriReadsBack(tokens);
    assert CoveredTokens(tokens)[0] == TokenOf([0xC3, 0xA9]);
    assert !SameToken(CoveredTokens(tokens)[0], tokens[0]);
  }

  lemma {:induction false} CutToken(name: seq<byte>)
    requires |name| == TWO_32 + 1 && name[0] == 0xC3 && name[1] == 0xA9
    ensures var t := TokenOf(name);
            && t.name == [0xC3] && SameToken(TokenOf([0xC3]), t) && TokenOf([0xC3, 0xA9]).name != t.name
            && UriOf(t) == Step(2, PercentBytes([0xC3, 0xA9])) && Covered(t) == [0xC3, 0xA9]
  {
    hide UriName, PercentBytes;
    assert Kept(name) == [0xC3];
    assert !IsDigit(name[0]) && !IsDigit([0xC3][0]);
    LeadNeedsTail(name);
  }

  lemma {:induction false} UriOne(t: Token)
    requires UriOf(t).Step?
    ensures UriTokens([t]) == Some([SLASH] + UriOf(t).text)
  {
    hide UriOf;
    assert [t][1..] == [];
    assert [SLASH] + UriOf(t).text + [] == [SLASH] + UriOf(t).text;
  }

  lemma {:induction false} LeadNeedsTail(name: seq<byte>)
    requires |name| >= 2 && name[0] == 0xC3 && name[1] == 0xA9
    ensures UriName(name, 1, 0) == Step(2, PercentBytes([0xC3, 0xA9]))
  {
    Utf8.DecodeParts(name, 0);
    assert name[0..2] == [0xC3, 0xA9];
    assert PercentBytes([0xC3, 0xA9]) + [] == PercentBytes([0xC3, 0xA9]);
  }

  // ---------- Counting tokens

  /** The number of solidi from `i` on. */
  function Solidi(s: seq<byte>, i: nat): nat
    requires i <= |s|
    decreases |s| - i
  {
    if i == |s| then 0 else (if s[i] == SLASH then 1 else 0) + Solidi(s, i + 1)
  }

  lemma {:induction false} SolidiSkip(s: seq<byte>, i: nat, j: nat)
    requires i <= j <= |s| && forall k :: i <= k < j ==> s[k] != SLASH
    ensures Solidi(s, i) == Solidi(s, j)
    decreases j - i
  {
    if i < j {
      SolidiSkip(s, i + 1, j);
    }
  }

  lemma {:induction false} TripletsNoSolidus(s: seq<byte>, i: nat, n: nat)
    requires n <= |Triplets(s, i)| && i + 3 * n <= |s|
    ensures forall k :: i <= k < i + 3 * n ==> s[k] != SLASH
    decreases n
  {
    if n > 0 {
      TripletsNoSolidus(s, i + 3, n - 1);
    }
  }

  lemma {:induction false} PartNoSolidus(s: seq<byte>, uri: bool, i: nat)
    requires i < |s| && s[i] != SLASH && PartAt(s, uri, i).Part?
    ensures Solidi(s, PartAt(s, uri, i).next) == Solidi(s, i)
  {
    hide Triplets, Utf8.Decode, NeedPercentEncode;
    var p := PartAt(s, uri, i);
    if uri && s[i] == PERCENT {
      var d := Utf8.Decode(Triplets(s, i), 0);
      TripletsNoSolidus(s, i, if d.next == 1 then 1 else d.next);
    }
    SolidiSkip(s, i, p.next);
  }

  lemma {:induction false} NameNoSolidus(s: seq<byte>, uri: bool, i: nat)
    requires i <= |s| && NameAt(s, uri, i).Part?
    ensures Solidi(s, NameAt(s, uri, i).next) == Solidi(s, i)
    decreases |s| - i
  {
    hide PartAt, Solidi;
    if i < |s| && s[i] != SLASH {
      PartNoSolidus(s, uri, i);
      NameNoSolidus(s, uri, PartAt(s, uri, i).next);
    }
  }

  /** There are as many tokens as solidi. */
  lemma {:induction false} TokensAreSolidi(s: seq<byte>, uri: bool, i: nat)
    requires i <= |s| && NameEnds(s, i) && TokensAt(s, uri, i).Pointer?
    ensures |TokensAt(s, uri, i).tokens| == Solidi(s, i)
    decreases |s| - i
  {
    hide NameAt, IndexOf;
    if i < |s| {
      NameNoSolidus(s, uri, i + 1);
      TokensAreSolidi(s, uri, NameAt(s, uri, i + 1).next);
    }
  }
}
