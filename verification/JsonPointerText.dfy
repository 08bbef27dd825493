/** The pointer's own loops: parsing into one array of tokens and one buffer of names,
    both of the sizes fixed by a first pass, and writing in both notations. */
module JsonPointerText {
  import opened Words
  import opened JsonText
  import JsonString
  import opened JsonPointer
  import Utf8
  import W = JsonWriter

  /** `PercentDecodeStream::Take`: a byte, the place reached, and whether it was valid. */
  method Take(s: seq<byte>, p0: nat) returns (c: byte, p: nat, valid: bool)
    ensures valid == Triplet(s, p0).Some?
    ensures valid ==> Triplet(s, p0) == Some(c) && p == p0 + 3
    ensures !valid ==> c == 0
  {
    p := p0;
    if Peek(s, p) != PERCENT || p + 3 > |s| {
      return 0, p, false;
    }
    p := p + 1;
    var value, j := 0, 0;
    while j < 2
      invariant 0 <= j <= 2 && p == p0 + 1 + j
      invariant j == 0 ==> value == 0
      invariant j == 1 ==> JsonString.HexValue(s[p0 + 1]) == Some(value)
      invariant j == 2 ==> Triplet(s, p0) == Some(value)
    {
      value := value * 16;
      var h := JsonString.HexValue(s[p]);
      if h.None? {
        return 0, p, false;
      }
      value := value + h.value;
      p := p + 1;
      j := j + 1;
    }
    return value, p, true;
  }

  lemma {:induction false} TripletsNext(s: seq<byte>, i: nat, k: nat)
    requires k <= |Triplets(s, i)|
    ensures k < |Triplets(s, i)| ==> Triplet(s, i + 3 * k) == Some(Triplets(s, i)[k])
    ensures k == |Triplets(s, i)| ==> Triplet(s, i + 3 * k) == None
    decreases k
  {
    hide Triplet;
    if k > 0 {
      TripletsNext(s, i + 3, k - 1);
    }
  }

  /** `Validate` from a stream of triplets to the buffer of names. It takes as many bytes
      as the leading one announces, valid or not, but the buffer has room for them. */
  method ValidatePercent(s: seq<byte>, i: nat, names: array<byte>, name: nat) returns (ok: bool, p: nat, len: nat)
    requires name < names.Length && (Triplet(s, i).Some? ==> name + 4 <= names.Length)
    modifies names
    ensures forall k :: 0 <= k < name ==> names[k] == old(names[k])
    ensures var run, d := Triplets(s, i), Utf8.Decode(Triplets(s, i), 0);
            && ok == (run != [] && d.ok && d.next <= |run|)
            && (ok ==> 1 <= len == d.next && p == i + 3 * len && name + len <= names.Length
                       && names[name..name + len] == run[..len])
  {
    hide Triplet, Triplets, Utf8.Decode, Utf8.Masks, Utf8.Tails, Utf8.Hits, Utf8.Range, Utf8.LeadBits;
    ghost var run := Triplets(s, i);
    DecodeStart(run);
    TripletsNext(s, i, 0);
    var c, valid;
    c, p, valid := Take(s, i);
    names[name] := c;
    len := 1;
    if c < 0x80 {
      return valid, p, len;
    }
    var masks := Utf8.Masks(Utf8.Range(c));
    if masks.None? {
      return false, p, len;
    }
    ghost var d := Utf8.Code(true, Utf8.LeadBits(c, Utf8.Range(c)), 1);
    var result, k := true, 0;
    assert masks.value[0..] == masks.value;
    while k < |masks.value|
      invariant 0 <= k <= |masks.value| <= 3 && len == k + 1 && d.next == len && d.ok == result
      invariant forall j :: 0 <= j < name ==> names[j] == old(names[j])
      invariant Utf8.Tails(run, masks.value[k..], d) == Utf8.Decode(run, 0)
      invariant !valid ==> !result
      invariant valid ==> p == i + 3 * len && len <= |run| && names[name..name + len] == run[..len]
    {
      TailsFirst(run, masks.value, k, d);
      if valid {
        TripletsNext(s, i, len);
      }
      ghost var c0 := Peek(run, d.next);
      d := Utf8.Code(d.ok && Utf8.Hits(Utf8.Range(c0), masks.value[k]), d.value * 0x40 + c0 % 0x40, d.next + 1);
      var v;
      c, p, v := Take(s, p);
      ZeroMisses(masks.value[k]);
      valid := valid && v;
      names[name + len] := c;
      len := len + 1;
      result := result && Utf8.Hits(Utf8.Range(c), masks.value[k]);
      k := k + 1;
    }
    TailsNone(run, masks.value[k..], d);
    ok := result && valid;
  }

  lemma {:induction false} DecodeStart(run: seq<byte>)
    ensures var c := Peek(run, 0);
            var masks := Utf8.Masks(Utf8.Range(c));
            && (c < 0x80 ==> Utf8.Decode(run, 0) == Utf8.Code(true, c, 1))
            && (c >= 0x80 && masks.None? ==> !Utf8.Decode(run, 0).ok)
            && (c >= 0x80 && masks.Some? ==>
                  && |masks.value| <= 3
                  && Utf8.Decode(run, 0) == Utf8.Tails(run, masks.value,
                      Utf8.Code(true, Utf8.LeadBits(c, Utf8.Range(c)), 1)))
  {
    hide Utf8.Tails, Utf8.Range, Utf8.LeadBits;
  }

  lemma {:induction false} TailsFirst(s: seq<byte>, masks: seq<nat>, k: nat, d: Utf8.Code)
    requires k < |masks|
    ensures var c := Peek(s, d.next);
            Utf8.Tails(s, masks[k..], d)
            == Utf8.Tails(s, masks[k + 1..],
                          Utf8.Code(d.ok && Utf8.Hits(Utf8.Range(c), masks[k]), d.value * 0x40 + c % 0x40, d.next + 1))
  {
    hide Utf8.Hits, Utf8.Range;
    assert masks[k..][1..] == masks[k + 1..];
  }

  lemma {:induction false} TailsNone(s: seq<byte>, masks: seq<nat>, d: Utf8.Code)
    requires masks == []
    ensures Utf8.Tails(s, masks, d) == d
  {
  }

  lemma ZeroMisses(mask: nat)
    ensures !Utf8.Hits(Utf8.Range(0), mask)
  {
  }

  /** What a turn of the loop over a name has put into the buffer. */
  datatype Put = Put(next: nat, len: nat, digits: bool) | PutError(code: ErrorCode, offset: nat)

  /** The buffer holds the bytes of a part, or the error is the part's. */
  ghost predicate Holds(names: array<byte>, name: nat, r: Put, p: Part)
    reads names
  {
    match p
    case PartError(code, offset) => r == PutError(code, offset)
    case Part(next, bytes) =>
      && r == Put(next, |bytes|, AllDigits(bytes)) && name + |bytes| <= names.Length
      && names[name..name + |bytes|] == bytes
  }

  /** The end of a turn: an escape after a tilde, the check for a digit, the byte stored. */
  method PutByte(s: seq<byte>, i: nat, c0: byte, names: array<byte>, name: nat) returns (r: Put)
    requires i <= |s| && name < names.Length
    modifies names
    ensures forall k :: 0 <= k < name ==> names[k] == old(names[k])
    ensures Holds(names, name, r, Unescaped(s, i, c0))
  {
    var c, next := c0, i;
    if c == TILDE {
      if i < |s| {
        c := s[i];
        if c == ZERO {
          c := TILDE;
        } else if c == ONE {
          c := SLASH;
        } else {
          return PutError(InvalidEscape, i);
        }
        next := i + 1;
      } else {
        return PutError(InvalidEscape, i);
      }
    }
    names[name] := c;
    r := Put(next, 1, IsDigit(c));
    assert names[name..name + 1] == [c] && (IsDigit([c][0]) ==> AllDigits([c]));
  }

  method ParsePart(s: seq<byte>, uri: bool, i: nat, names: array<byte>, name: nat) returns (r: Put)
    requires i < |s| == names.Length && name + (if uri then 2 else 1) <= i
    modifies names
    ensures forall k :: 0 <= k < name ==> names[k] == old(names[k])
    ensures Holds(names, name, r, PartAt(s, uri, i))
  {
    hide Triplets, Utf8.Decode, Utf8.Masks, Unescaped;
    var c, next := s[i], i;
    if uri {
      if c == PERCENT {
        var ok, p, len := ValidatePercent(s, i, names, name);
        if !ok {
          return PutError(InvalidPercentEncoding, i);
        }
        next := p - 1;
        if len == 1 {
          c := names[name];
          assert c == names[name..name + len][0];
        } else {
          LongNotDigits(Triplets(s, i));
          return Put(next + 1, len, false);
        }
      } else if NeedPercentEncode(c) {
        return PutError(CharacterMustPercentEncode, i);
      }
    }
    r := PutByte(s, next + 1, c, names, name);
  }

  lemma {:induction false} LongNotDigits(run: seq<byte>)
    requires run != [] && Utf8.Decode(run, 0).next > 1
    ensures forall n :: 1 <= n <= |run| ==> !AllDigits(run[..n])
  {
    forall n | 1 <= n <= |run|
      ensures !AllDigits(run[..n])
    {
      assert !IsDigit(run[..n][0]);
    }
  }

  /** One more part after those that are already in the buffer. */
  method AppendPart(s: seq<byte>, uri: bool, i: nat, names: array<byte>, name0: nat, name: nat, ghost done: seq<byte>)
    returns (r: Put)
    requires i < |s| == names.Length && name0 <= name && name + (if uri then 2 else 1) <= i
    requires names[name0..name] == done
    modifies names
    ensures forall k :: 0 <= k < name0 ==> names[k] == old(names[k])
    ensures PartAt(s, uri, i).PartError? ==> r == PutError(PartAt(s, uri, i).code, PartAt(s, uri, i).offset)
    ensures PartAt(s, uri, i).Part? ==>
              var bytes := PartAt(s, uri, i).bytes;
              && r.Put? && r.next == PartAt(s, uri, i).next && r.len == |bytes| && name + r.len <= names.Length
              && names[name0..name + r.len] == done + bytes
              && (AllDigits(done + bytes) <==> AllDigits(done) && r.digits)
  {
    hide PartAt, AllDigits;
    r := ParsePart(s, uri, i, names, name);
    if r.Put? {
      assert names[name0..name] == done;
      Appended(names, name0, name, done, PartAt(s, uri, i).bytes);
    }
  }

  /** The loop over one name. */
  method ParseName(s: seq<byte>, uri: bool, i0: nat, names: array<byte>, name0: nat) returns (r: Put)
    requires i0 <= |s| == names.Length && name0 + (if uri then 2 else 1) <= i0
    modifies names
    ensures forall k :: 0 <= k < name0 ==> names[k] == old(names[k])
    ensures Holds(names, name0, r, NameAt(s, uri, i0))
    ensures r.Put? ==> i0 <= r.next
  {
    hide PartAt, NameAt, AllDigits, Before;
    NothingRead(NameAt(s, uri, i0));
    var i, name, digits := i0, name0, true;
    ghost var done := [];
    while i < |s| && s[i] != SLASH
      invariant i0 <= i <= |s| && name0 <= name && name + (if uri then 2 else 1) <= i
      invariant forall k :: 0 <= k < name0 ==> names[k] == old(names[k])
      invariant names[name0..name] == done && digits == AllDigits(done)
      invariant Before(done, NameAt(s, uri, i)) == NameAt(s, uri, i0)
      decreases |s| - i
    {
      NameStep(s, uri, i, done);
      var p := AppendPart(s, uri, i, names, name0, name, done);
      match p {
        case PutError(code, offset) =>
          return PutError(code, offset);
        case Put(next, len, d) =>
          digits := digits && d;
          done := done + PartAt(s, uri, i).bytes;
          i, name := next, name + len;
      }
    }
    NameStep(s, uri, i, done);
    r := Put(i, name - name0, digits);
  }

  lemma NothingRead(p: Part)
    ensures Before([], p) == p && AllDigits([])
  {
    if p.Part? {
      assert [] + p.bytes == p.bytes;
    }
  }

  /** A turn of the loop, for a name of which `done` has been read. */
  lemma {:induction false} NameStep(s: seq<byte>, uri: bool, i: nat, done: seq<byte>)
    requires i <= |s|
    ensures NameEnds(s, i) ==> Before(done, NameAt(s, uri, i)) == Part(i, done)
    ensures !NameEnds(s, i) && PartAt(s, uri, i).PartError? ==> Before(done, NameAt(s, uri, i)) == PartAt(s, uri, i)
    ensures !NameEnds(s, i) && PartAt(s, uri, i).Part? ==>
              Before(done, NameAt(s, uri, i))
              == Before(done + PartAt(s, uri, i).bytes, NameAt(s, uri, PartAt(s, uri, i).next))
  {
    hide PartAt;
    if NameEnds(s, i) {
      assert done + [] == done;
    } else {
      var p := PartAt(s, uri, i);
      if p.Part? && NameAt(s, uri, p.next).Part? {
        var rest := NameAt(s, uri, p.next).bytes;
        assert done + (p.bytes + rest) == done + p.bytes + rest;
      }
    }
  }

  lemma Appended(names: array<byte>, a: nat, b: nat, done: seq<byte>, bytes: seq<byte>)
    requires a <= b && b + |bytes| <= names.Length && names[a..b] == done && names[b..b + |bytes|] == bytes
    ensures names[a..b + |bytes|] == done + bytes
    ensures AllDigits(done + bytes) <==> AllDigits(done) && AllDigits(bytes)
  {
    assert names[a..b + |bytes|] == names[a..b] + names[b..b + |bytes|];
    if AllDigits(done + bytes) {
      assert forall k :: 0 <= k < |done| ==> done[k] == (done + bytes)[k];
      assert forall k :: 0 <= k < |bytes| ==> bytes[k] == (done + bytes)[|done| + k];
    }
  }

  /** The conversion of a name, as its token keeps it, to an index. */
  method ToIndex(name: seq<byte>, digits: bool, ghost full: seq<byte>) returns (index: nat)
    requires name == Kept(full) && digits == AllDigits(full)
    ensures index == IndexOf(full)
  {
    assert digits ==> AllDigits(name);
    var isNumber := digits;
    if |name| == 0 {
      isNumber := false;
    }
    if isNumber && |name| > 1 && name[0] == ZERO {
      isNumber := false;
    }
    var n := 0;
    if isNumber {
      var j := 0;
      while j < |name|
        invariant 0 <= j <= |name| && n < TWO_32 && Number(name[..j]) == Some(n)
      {
        assert name[..j + 1][..j] == name[..j];
        var m := (n * 10 + (name[j] - ZERO)) % TWO_32;
        if m < n {
          NumberStops(name, j + 1);
          return INVALID_INDEX;
        }
        n := m;
        j := j + 1;
      }
      assert name[..|name|] == name;
    }
    index := if isNumber then n else INVALID_INDEX;
  }

  lemma {:induction false} NumberStops(name: seq<byte>, j: nat)
    requires AllDigits(name) && j <= |name| && Number(name[..j]).None?
    ensures Number(name).None?
    decreases |name|
  {
    if j == |name| {
      assert name[..j] == name;
    } else {
      var last := |name| - 1;
      assert name[..last][..j] == name[..j];
      NumberStops(name[..last], j);
    }
  }

  // ---------- Parsing

  /** A token as it is stored: its name is a part of the buffer. */
  datatype RawToken = RawToken(start: nat, length: nat, index: nat)

  /** The stored token is `t`: all of its name and then a zero byte lie before `end`. */
  predicate Stores(names: seq<byte>, end: nat, raw: RawToken, t: Token)
    requires end <= |names|
  {
    var n := raw.start + |Full(t)|;
    && raw.length == |t.name| && raw.index == t.index
    && n < end && names[raw.start..n] == Full(t) && names[n] == NUL
  }

  function PrependAll(done: seq<Token>, p: Parsed): Parsed {
    if p.Pointer? then Pointer(done + p.tokens) else p
  }

  /** The number of solidi, which is the number of tokens to make room for. */
  method CountTokens(s: seq<byte>) returns (count: nat)
    ensures count == Solidi(s, 0)
  {
    count := 0;
    var i := 0;
    while i < |s|
      invariant 0 <= i <= |s| && count + Solidi(s, i) == Solidi(s, 0)
    {
      if s[i] == SLASH {
        count := count + 1;
      }
      i := i + 1;
    }
  }

  /** The token of a name that is in the buffer, and the zero byte after it. */
  method StoreToken(names: array<byte>, name: nat, len: nat, digits: bool, tokens: array<RawToken>, token: nat,
                    ghost done: seq<Token>, ghost before: seq<byte>)
    requires name + len < names.Length == |before| && token < tokens.Length && names as object != tokens as object
    requires StoresAll(before, name, tokens[..token], done) && before[..name] == names[..name]
    requires digits == AllDigits(names[name..name + len])
    modifies names, tokens
    ensures StoresAll(names[..], name + len + 1, tokens[..token + 1], done + [TokenOf(old(names[name..name + len]))])
  {
    hide StoresAll, IndexOf, TokenOf, AllDigits;
    ghost var bytes, raws := names[name..name + len], tokens[..token];
    var length := len % TWO_32;
    assert names[name..name + length] == Kept(bytes);
    var index := ToIndex(names[name..name + length], digits, bytes);
    names[name + len] := NUL;
    var raw := RawToken(name, length, index);
    tokens[token] := raw;
    assert names[..][..name] == before[..name];
    assert names[..][name..name + len] == bytes;
    OneMoreStored(before, names[..], name, raws, done, raw, bytes);
    assert tokens[..token + 1] == raws + [raw];
  }

  /** One token and its name. */
  method PutToken(s: seq<byte>, uri: bool, i: nat, names: array<byte>, name: nat, tokens: array<RawToken>, token: nat,
                  ghost done: seq<Token>)
    returns (p: Put)
    requires i <= |s| == names.Length && name + (if uri then 2 else 1) <= i && token < tokens.Length
    requires names as object != tokens as object
    requires StoresAll(names[..], name, tokens[..token], done)
    modifies names, tokens
    ensures NameAt(s, uri, i).PartError? ==> p == PutError(NameAt(s, uri, i).code, NameAt(s, uri, i).offset)
    ensures NameAt(s, uri, i).Part? ==>
              && p.Put? && p.next == NameAt(s, uri, i).next && i <= p.next
              && name + p.len + (if uri then 2 else 1) <= p.next
              && StoresAll(names[..], name + p.len + 1, tokens[..token + 1], done + [TokenOf(NameAt(s, uri, i).bytes)])
  {
    hide StoresAll, NameAt, TokenOf, AllDigits;
    ghost var before := names[..];
    p := ParseName(s, uri, i, names, name);
    if p.Put? {
      assert names[..name] == before[..name];
      StoreToken(names, name, p.len, p.digits, tokens, token, done, before);
    }
  }

  /** `Parse`: the tokens fill the array made for them exactly, and names, each with a
      zero byte after it, never go beyond a buffer as long as the text. */
  method ParseText(s: seq<byte>)
    returns (error: Option<(ErrorCode, nat)>, tokens: array<RawToken>, names: array<byte>)
    ensures names.Length == |s| && tokens.Length == Solidi(s, 0)
    ensures error.Some? ==> Parse(s) == ParseError(error.value.0, error.value.1)
    ensures error.None? ==> Parse(s).Pointer? && StoresAll(names[..], |s|, tokens[..], Parse(s).tokens)
  {
    hide StoresAll, TokensAt, NameAt, TokenOf, Solidi;
    var count := CountTokens(s);
    tokens := new RawToken[count](_ => RawToken(0, 0, 0));
    names := new byte[|s|](_ => 0);
    var i, uri := 0, false;
    if Peek(s, i) == HASH {
      uri := true;
      i := 1;
      SolidiSkip(s, 0, 1);
    }
    if i != |s| && s[i] != SLASH {
      return Some((TokenMustBeginWithSolidus, i)), tokens, names;
    }
    var i0 := i;
    NothingParsed(TokensAt(s, uri, i0));
    ghost var done := [];
    var token: nat, name: nat := 0, 0;
    NothingStored(names[..]);
    while i < |s|
      invariant i0 <= i <= |s| && NameEnds(s, i) && token + Solidi(s, i) == tokens.Length && |done| == token
      invariant name + (if uri then 1 else 0) <= i
      invariant PrependAll(done, TokensAt(s, uri, i)) == TokensAt(s, uri, i0)
      invariant StoresAll(names[..], name, tokens[..token], done)
      invariant fresh(tokens) && fresh(names)
      decreases |s| - i
    {
      TokenStep(s, uri, i, done);
      var p := PutToken(s, uri, i + 1, names, name, tokens, token, done);
      if p.PutError? {
        return Some((p.code, p.offset)), tokens, names;
      }
      done := done + [TokenOf(NameAt(s, uri, i + 1).bytes)];
      i, token, name := p.next, token + 1, name + p.len + 1;
    }
    TokensNone(s, uri, done);
    assert tokens[..token] == tokens[..];
    StoredBelow(names[..], name, |s|, tokens[..], done);
    error := None;
  }

  predicate StoresAll(names: seq<byte>, end: nat, raws: seq<RawToken>, tokens: seq<Token>) {
    end <= |names| && |raws| == |tokens| && forall k :: 0 <= k < |raws| ==> Stores(names, end, raws[k], tokens[k])
  }

  lemma NothingStored(names: seq<byte>)
    ensures StoresAll(names, 0, [], [])
  {
  }

  lemma StoredBelow(names: seq<byte>, end: nat, end': nat, raws: seq<RawToken>, tokens: seq<Token>)
    requires StoresAll(names, end, raws, tokens) && end <= end' <= |names|
    ensures StoresAll(names, end', raws, tokens)
  {
    hide Stores;
    forall k | 0 <= k < |raws|
      ensures Stores(names, end', raws[k], tokens[k])
    {
      StaysStored(names, names, end, end', raws[k], tokens[k]);
    }
  }

  /** What is stored below a place stays when the buffer changes from there on. */
  lemma StaysStored(a: seq<byte>, b: seq<byte>, end: nat, end': nat, raw: RawToken, t: Token)
    requires |a| == |b| && end <= end' <= |a| && a[..end] == b[..end] && Stores(a, end, raw, t)
    ensures Stores(b, end', raw, t)
  {
    hide Full;
    forall k | 0 <= k < end
      ensures a[k] == b[k]
    {
      assert a[k] == a[..end][k] && b[k] == b[..end][k];
    }
  }

  lemma OneMoreStored(a: seq<byte>, b: seq<byte>, name: nat, raws: seq<RawToken>, tokens: seq<Token>, raw: RawToken,
                      bytes: seq<byte>)
    requires StoresAll(a, name, raws, tokens) && |a| == |b| && a[..name] == b[..name]
    requires raw == RawToken(name, |bytes| % TWO_32, IndexOf(bytes)) && name + |bytes| < |b|
    requires b[name..name + |bytes|] == bytes && b[name + |bytes|] == NUL
    ensures StoresAll(b, name + |bytes| + 1, raws + [raw], tokens + [TokenOf(bytes)])
  {
    hide Stores, IndexOf;
    var end := name + |bytes| + 1;
    forall k | 0 <= k < |raws|
      ensures Stores(b, end, raws[k], tokens[k])
    {
      StaysStored(a, b, name, end, raws[k], tokens[k]);
    }
    NewStored(b, name, raw, bytes);
  }

  lemma NewStored(b: seq<byte>, name: nat, raw: RawToken, bytes: seq<byte>)
    requires raw == RawToken(name, |bytes| % TWO_32, IndexOf(bytes)) && name + |bytes| < |b|
    requires b[name..name + |bytes|] == bytes && b[name + |bytes|] == NUL
    ensures Stores(b, name + |bytes| + 1, raw, TokenOf(bytes))
  {
    hide IndexOf, Full;
  }

  lemma {:induction false} TokensNone(s: seq<byte>, uri: bool, done: seq<Token>)
    ensures PrependAll(done, TokensAt(s, uri, |s|)) == Pointer(done) && Solidi(s, |s|) == 0
  {
    assert done + [] == done;
  }

  lemma NothingParsed(p: Parsed)
    ensures PrependAll([], p) == p
  {
    if p.Pointer? {
      assert [] + p.tokens == p.tokens;
    }
  }

  lemma {:induction false} TokenStep(s: seq<byte>, uri: bool, i: nat, done: seq<Token>)
    requires i < |s| && s[i] == SLASH
    ensures Solidi(s, i) == 1 + Solidi(s, i + 1)
    ensures NameAt(s, uri, i + 1).Part? ==> Solidi(s, NameAt(s, uri, i + 1).next) == Solidi(s, i + 1)
    ensures PrependAll(done, TokensAt(s, uri, i)) ==
            match NameAt(s, uri, i + 1)
            case PartError(code, offset) => ParseError(code, offset)
            case Part(next, name) => PrependAll(done + [TokenOf(name)], TokensAt(s, uri, next))
  {
    hide NameAt, TokenOf;
    var p := NameAt(s, uri, i + 1);
    if p.Part? {
      NameNoSolidus(s, uri, i + 1);
      var t, rest := TokenOf(p.bytes), TokensAt(s, uri, p.next);
      if rest.Pointer? {
        assert done + ([t] + rest.tokens) == done + [t] + rest.tokens;
      }
    }
  }

  // ---------- Writing

  /** A name in the plain notation. */
  method PutPlainName(names: seq<byte>, raw: RawToken, out0: seq<byte>, ghost t: Token) returns (out: seq<byte>)
    requires Stores(names, |names|, raw, t)
    ensures out == out0 + PlainName(t.name)
  {
    hide PlainName;
    out := out0;
    var j := 0;
    assert t.name[0..] == t.name;
    while j < raw.length
      invariant 0 <= j <= raw.length && out + PlainName(t.name[j..]) == out0 + PlainName(t.name)
    {
      PlainStep(out, t.name, j);
      StoredByte(names, raw, t, j);
      out := PutPlainByte(names[raw.start + j], out);
      j := j + 1;
    }
    PlainEnd(out, t.name[j..]);
  }

  lemma StoredByte(names: seq<byte>, raw: RawToken, t: Token, j: nat)
    requires Stores(names, |names|, raw, t) && j < |Full(t)|
    ensures names[raw.start + j] == Full(t)[j]
    ensures j < raw.length ==> Full(t)[j] == t.name[j]
  {
    assert names[raw.start..raw.start + |Full(t)|][j] == names[raw.start + j];
  }

  method PutPlainByte(c: byte, out0: seq<byte>) returns (out: seq<byte>)
    ensures out == out0 + PlainByte(c)
  {
    out := out0;
    if c == TILDE {
      out := out + [TILDE];
      out := out + [ZERO];
    } else if c == SLASH {
      out := out + [TILDE];
      out := out + [ONE];
    } else {
      out := out + [c];
    }
  }

  lemma {:induction false} PlainStep(out: seq<byte>, name: seq<byte>, j: nat)
    requires j < |name|
    ensures out + PlainName(name[j..]) == out + PlainByte(name[j]) + PlainName(name[j + 1..])
  {
    hide PlainByte;
    assert name[j..][1..] == name[j + 1..];
  }

  lemma {:induction false} PlainEnd(out: seq<byte>, name: seq<byte>)
    requires name == []
    ensures out + PlainName(name) == out
  {
  }

  /** The bytes of a character through a `PercentEncodeStream`. */
  method PutPercent(b: seq<byte>, out0: seq<byte>) returns (out: seq<byte>)
    ensures out == out0 + PercentBytes(b)
  {
    hide W.HexDigit;
    out := out0;
    var k := 0;
    assert b[0..] == b;
    while k < |b|
      invariant 0 <= k <= |b| && out + PercentBytes(b[k..]) == out0 + PercentBytes(b)
    {
      ghost var before := out;
      out := out + [PERCENT] + [W.HexDigit(b[k] / 16)] + [W.HexDigit(b[k] % 16)];
      assert b[k..][1..] == b[k + 1..];
      assert out == before + [PERCENT, W.HexDigit(b[k] / 16), W.HexDigit(b[k] % 16)];
      k := k + 1;
    }
  }

  /** `Validate` on the buffer itself gives what it would on the name alone: the zero byte is
      no part of a character. */
  lemma {:induction false} DecodeInBuffer(names: seq<byte>, start: nat, name: seq<byte>, j: nat)
    requires j < |name| && start + |name| < |names|
    requires names[start..start + |name|] == name && names[start + |name|] == NUL
    ensures var d, e := Utf8.Decode(names, start + j), Utf8.Decode(name, j);
            d.ok == e.ok && (d.ok ==> d.next == start + e.next <= start + |name|)
  {
    hide Utf8.Decode, Utf8.CharAt, Utf8.Join2, Utf8.Join3, Utf8.Join4;
    Utf8.DecodeFollowsGrammar(name, j);
    Utf8.DecodeParts(name, j);
    Utf8.DecodeParts(names, start + j);
    forall k | 0 <= k <= |name|
      ensures Peek(names, start + k) == Peek(name, k)
    {
      assert k < |name| ==> names[start..start + |name|][k] == names[start + k];
    }
    if Utf8.Decode(name, j).ok {
      var n := Utf8.Decode(name, j).next - j;
      assert j + n <= |name| by { Utf8.CharAtBytes(name, j, n); }
    }
  }

  /** One turn of the loop over a name. Characters are read from the buffer, and so may end
      behind what the token keeps. */
  method PutUriUnit(names: seq<byte>, raw: RawToken, j: nat, out0: seq<byte>, ghost t: Token)
    returns (ok: bool, out: seq<byte>, next: nat)
    requires Stores(names, |names|, raw, t) && j < raw.length
    ensures ok == UriStep(Full(t), j).Step?
    ensures ok ==> out == out0 + UriStep(Full(t), j).text && next == UriStep(Full(t), j).next
  {
    hide PercentBytes, PlainByte, Utf8.Decode, NeedPercentEncode, Utf8.CharAt;
    ghost var name := Full(t);
    StoredByte(names, raw, t, j);
    var c := names[raw.start + j];
    if c == TILDE || c == SLASH || !NeedPercentEncode(c) {
      out := PutPlainByte(c, out0);
      return true, out, j + 1;
    }
    DecodeInBuffer(names, raw.start, name, j);
    Utf8.DecodeFollowsGrammar(name, j);
    var d := Utf8.Decode(names, raw.start + j);
    if !d.ok {
      return false, out0, j;
    }
    next := d.next - raw.start;
    SliceInside(names, raw.start, name, j, next);
    out := PutPercent(names[raw.start + j..d.next], out0);
    ok := true;
  }

  /** A name in a URI fragment. */
  method PutUriName(names: seq<byte>, raw: RawToken, out0: seq<byte>, ghost t: Token)
    returns (ok: bool, out: seq<byte>)
    requires Stores(names, |names|, raw, t)
    ensures ok == UriOf(t).Step?
    ensures ok ==> out == out0 + UriOf(t).text
  {
    hide UriStep, UriName;
    ghost var name, n := Full(t), raw.length;
    out := out0;
    var j := 0;
    NothingAhead(UriName(name, n, 0));
    ghost var done := [];
    assert out == out0 + done;
    while j < raw.length
      invariant 0 <= j <= |name| && out == out0 + done && Ahead(done, UriName(name, n, j)) == UriName(name, n, 0)
      decreases |name| - j
    {
      UriNameStep(name, n, j, done);
      ghost var step := UriStep(name, j);
      ok, out, j := PutUriUnit(names, raw, j, out, t);
      if !ok {
        return;
      }
      assert out == out0 + (done + step.text);
      done := done + step.text;
    }
    UriNameEnd(name, n, j, done);
    ok := true;
  }

  lemma SliceInside(names: seq<byte>, start: nat, name: seq<byte>, a: nat, b: nat)
    requires start + |name| <= |names| && names[start..start + |name|] == name && a <= b <= |name|
    ensures names[start + a..start + b] == name[a..b]
  {
    forall k | a <= k < b
      ensures names[start + k] == name[k]
    {
      assert names[start..start + |name|][k] == names[start + k];
    }
  }

  lemma {:induction false} UriNameStep(name: seq<byte>, n: nat, j: nat, done: seq<byte>)
    requires j < n <= |name|
    ensures UriStep(name, j).Invalid? ==> UriName(name, n, j) == Invalid
    ensures UriStep(name, j).Step? ==>
              var step := UriStep(name, j);
              Ahead(done, UriName(name, n, j)) == Ahead(done + step.text, UriName(name, n, step.next))
  {
    hide UriStep;
    var r := UriStep(name, j);
    if r.Step? && UriName(name, n, r.next).Step? {
      var rest := UriName(name, n, r.next).text;
      assert done + (r.text + rest) == done + r.text + rest;
    }
  }

  lemma {:induction false} UriNameEnd(name: seq<byte>, n: nat, j: nat, done: seq<byte>)
    requires n <= j <= |name|
    ensures Ahead(done, UriName(name, n, j)) == Step(j, done)
  {
    assert done + [] == done;
  }

  lemma NothingJoined(b: Option<seq<byte>>)
    ensures Join([], b) == b
  {
    if b.Some? {
      assert [] + b.value == b.value;
    }
  }

  /** What is written for the tokens from `k` on. */
  function Rest(tokens: seq<Token>, k: nat, uri: bool): Option<seq<byte>>
    requires k <= |tokens|
  {
    if uri then UriTokens(tokens[k..]) else Some(Plain(tokens[k..]))
  }

  /** `Stringify`, in either notation, from the tokens and names as they are stored. */
  method Stringify(names: seq<byte>, raws: seq<RawToken>, uri: bool, ghost tokens: seq<Token>)
    returns (ok: bool, out: seq<byte>)
    requires StoresAll(names, |names|, raws, tokens)
    ensures !uri ==> ok && out == Plain(tokens)
    ensures uri ==> ok == Uri(tokens).Some? && (ok ==> out == Uri(tokens).value)
  {
    hide UriTokens, Plain, UriOf, PlainName, Stores;
    out := if uri then [HASH] else [];
    ghost var whole := Join(out, Rest(tokens, 0, uri));
    assert tokens[0..] == tokens;
    NothingJoined(Rest(tokens, 0, false));
    var k := 0;
    while k < |raws|
      invariant 0 <= k <= |raws| && Join(out, Rest(tokens, k, uri)) == whole
    {
      RestStep(tokens, k, uri, out);
      out := out + [SLASH];
      if uri {
        ok, out := PutUriName(names, raws[k], out, tokens[k]);
        if !ok {
          return;
        }
      } else {
        out := PutPlainName(names, raws[k], out, tokens[k]);
      }
      k := k + 1;
    }
    RestEnd(tokens, uri, out);
    ok := true;
  }

  lemma {:induction false} RestStep(tokens: seq<Token>, k: nat, uri: bool, out: seq<byte>)
    requires k < |tokens|
    ensures uri && UriOf(tokens[k]).Invalid? ==> Rest(tokens, k, uri).None?
    ensures uri && UriOf(tokens[k]).Step? ==>
              Join(out, Rest(tokens, k, uri))
                  == Join(out + [SLASH] + UriOf(tokens[k]).text, Rest(tokens, k + 1, uri))
    ensures !uri ==>
              Join(out, Rest(tokens, k, uri))
                  == Join(out + [SLASH] + PlainName(tokens[k].name), Rest(tokens, k + 1, uri))
  {
    hide UriOf, PlainName;
    assert tokens[k..][1..] == tokens[k + 1..];
    var rest := Rest(tokens, k + 1, uri);
    if rest.Some? {
      var plain, name := PlainName(tokens[k].name), UriOf(tokens[k]);
      assert out + ([SLASH] + plain + rest.value) == out + [SLASH] + plain + rest.value;
      if name.Step? {
        assert out + ([SLASH] + name.text + rest.value) == out + [SLASH] + name.text + rest.value;
      }
    }
  }

  lemma {:induction false} RestEnd(tokens: seq<Token>, uri: bool, out: seq<byte>)
    ensures Join(out, Rest(tokens, |tokens|, uri)) == Some(out)
  {
    assert tokens[|tokens|..] == [];
    assert out + [] == out;
  }

  /** A text parsed, written in either notation from what is stored, and parsed again: an equal
      pointer exactly if the tokens are consistent and, for a URI fragment, what is kept of
      every name is well-formed; so always for a shorter text than 2^32 bytes, but for a URI
      fragment of names that are not well-formed, which cannot be written. */
  method Rewrite(s: seq<byte>, uri: bool) returns (parsed: bool, ok: bool, out: seq<byte>)
    ensures parsed == Parse(s).Pointer?
    ensures parsed ==>
              var tokens := Parse(s).tokens;
              && (ok && ReadAs(Parse(out), tokens) <==> Consistent(tokens) && (uri ==> AllWellFormed(tokens)))
              && (|s| < TWO_32 ==> Consistent(tokens) && ok == (uri ==> AllWellFormed(tokens)))
  {
    hide Parse, Plain, Uri, StoresAll, Consistent, AllWellFormed, ReadAs;
    var error, tokens, names := ParseText(s);
    if error.Some? {
      return false, false, [];
    }
    parsed := true;
    ParsedSurvives(s);
    ok, out := Stringify(names[..], tokens[..], uri, Parse(s).tokens);
  }
}
