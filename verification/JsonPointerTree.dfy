/** JSON Pointers applied to a tree: looking a value up, creating the way to it, setting
    and erasing it. */
module JsonPointerTree {
  import opened Words
  import opened JsonText
  import opened JsonDocument
  import opened JsonPointer

  // ---------- Looking up

  /** The first member of that name, or the number of members. */
  function FindMember(ms: seq<Member>, name: seq<byte>): (k: nat)
    ensures k <= |ms|
    ensures k < |ms| ==> ms[k].name == name
    ensures forall j :: 0 <= j < k ==> ms[j].name != name
  {
    if ms == [] || ms[0].name == name then 0 else 1 + FindMember(ms[1..], name)
  }

  /** The child that a token stands for. */
  function Child(v: Json, t: Token): Option<Json> {
    match v
    case JObject(ms) =>
      var k := FindMember(ms, t.name);
      if k < |ms| then Some(ms[k].value) else None
    case JArray(es) => if t.index == INVALID_INDEX || t.index >= |es| then None else Some(es[t.index])
    case _ => None
  }

  /** What a token does depends on its name and index only. */
  lemma SameChild(v: Json, t: Token, u: Token)
    requires SameToken(t, u)
    ensures Child(v, t) == Child(v, u)
  {
  }

  function Get(v: Json, p: seq<Token>): Option<Json>
    decreases |p|
  {
    if p == [] then Some(v)
    else
      match Child(v, p[0])
      case None => None
      case Some(c) => Get(c, p[1..])
  }

  // ---------- Creating

  /** A container with a child at a position, and whether it was so before. */
  datatype Place = Place(container: Json, k: nat, exist: bool)

  predicate HasSlot(v: Json, k: nat) {
    (v.JObject? && k < |v.members|) || (v.JArray? && k < |v.elements|)
  }

  function Slot(v: Json, k: nat): Json
    requires HasSlot(v, k)
  {
    if v.JObject? then v.members[k].value else v.elements[k]
  }

  function Put(v: Json, k: nat, c: Json): (r: Json)
    requires HasSlot(v, k)
    ensures HasSlot(r, k) && Slot(r, k) == c
  {
    if v.JObject? then JObject(v.members[k := v.members[k].(value := c)]) else JArray(v.elements[k := c])
  }

  predicate IsDash(t: Token) {
    t.name == [MINUS]
  }

  /** The value as the container that a token asks for: what it is, if that will do. */
  function Container(v: Json, t: Token): Json {
    if t.index == INVALID_INDEX then (if v.JObject? then v else JObject([]))
    else if v.JArray? || v.JObject? then v
    else JArray([])
  }

  function Nulls(n: nat): (es: seq<Json>)
    ensures |es| == n && forall k :: 0 <= k < n ==> es[k] == JNull
  {
    seq(n, _ => JNull)
  }

  /** One turn of the loop of `Create`. */
  function PlaceOf(v: Json, t: Token): (r: Place)
    ensures HasSlot(r.container, r.k)
  {
    if v.JArray? && IsDash(t) then Place(JArray(v.elements + [JNull]), |v.elements|, false)
    else
      match Container(v, t)
      case JArray(es) =>
        if t.index >= |es| then Place(JArray(es + Nulls(t.index + 1 - |es|)), t.index, false)
        else Place(JArray(es), t.index, true)
      case JObject(ms) =>
        var k := FindMember(ms, t.name);
        if k == |ms| then Place(JObject(ms + [Member(t.name, JNull)]), k, false) else Place(JObject(ms), k, true)
  }

  /** The tree after `Create`, the way to the value it returns, and `alreadyExist`. */
  datatype Created = Created(root: Json, way: seq<nat>, exist: bool)

  function Create(v: Json, p: seq<Token>): Created
    decreases |p|
  {
    if p == [] then Created(v, [], true)
    else
      var s := PlaceOf(v, p[0]);
      var c := Create(Slot(s.container, s.k), p[1..]);
      Created(Put(s.container, s.k, c.root), [s.k] + c.way, s.exist && c.exist)
  }

  predicate HasWay(v: Json, way: seq<nat>)
    decreases |way|
  {
    way == [] || (HasSlot(v, way[0]) && HasWay(Slot(v, way[0]), way[1..]))
  }

  function At(v: Json, way: seq<nat>): Json
    requires HasWay(v, way)
    decreases |way|
  {
    if way == [] then v else At(Slot(v, way[0]), way[1..])
  }

  /** An assignment through the reference that `Create` returns. */
  function Assign(v: Json, way: seq<nat>, x: Json): Json
    requires HasWay(v, way)
    decreases |way|
  {
    if way == [] then x else Put(v, way[0], Assign(Slot(v, way[0]), way[1..], x))
  }

  lemma {:induction false} CreatedHasWay(v: Json, p: seq<Token>)
    ensures HasWay(Create(v, p).root, Create(v, p).way)
    decreases |p|
  {
    hide PlaceOf, Put;
    if p != [] {
      var s := PlaceOf(v, p[0]);
      CreatedHasWay(Slot(s.container, s.k), p[1..]);
      assert Create(v, p).way[1..] == Create(Slot(s.container, s.k), p[1..]).way;
    }
  }

  function Set(v: Json, p: seq<Token>, x: Json): Json {
    CreatedHasWay(v, p);
    var c := Create(v, p);
    Assign(c.root, c.way, x)
  }

  // ---------- Create

  /** Tokens that are a dash have no index, as with all that were parsed. */
  predicate Plausible(p: seq<Token>) {
    forall k :: 0 <= k < |p| ==> IsDash(p[k]) ==> p[k].index == INVALID_INDEX
  }

  /** A pointer that was parsed. */
  lemma ParsedIsPlausible(s: seq<byte>)
    requires Parse(s).Pointer?
    ensures Plausible(Parse(s).tokens)
  {
    hide TokensAt;
    var uri := Peek(s, 0) == HASH;
    TokensPlausible(s, uri, if uri then 1 else 0);
  }

  lemma {:induction false} TokensPlausible(s: seq<byte>, uri: bool, i: nat)
    requires i <= |s| && NameEnds(s, i) && TokensAt(s, uri, i).Pointer?
    ensures Plausible(TokensAt(s, uri, i).tokens)
    decreases |s| - i
  {
    hide NameAt, TokenOf;
    if i < |s| {
      DashIsNoIndex(NameAt(s, uri, i + 1).bytes);
      TokensPlausible(s, uri, NameAt(s, uri, i + 1).next);
    }
  }

  lemma DashIsNoIndex(name: seq<byte>)
    ensures IsDash(TokenOf(name)) ==> TokenOf(name).index == INVALID_INDEX
  {
    if IsDash(TokenOf(name)) {
      assert Kept(name)[0] == name[0] && !IsDigit(name[0]);
    }
  }

  /** A turn finds a child exactly where looking up does, and then leaves all as it is. */
  lemma {:induction false} PlaceExists(v: Json, t: Token)
    requires IsDash(t) ==> t.index == INVALID_INDEX
    ensures var s := PlaceOf(v, t);
            && (s.exist <==> Child(v, t).Some?)
            && (s.exist ==> s.container == v && Slot(s.container, s.k) == Child(v, t).value)
            && (!s.exist ==> Slot(s.container, s.k) == JNull)
  {
  }

  lemma PutSame(v: Json, k: nat)
    requires HasSlot(v, k)
    ensures Put(v, k, Slot(v, k)) == v
  {
    if v.JObject? {
      assert v.members[k := v.members[k]] == v.members;
    } else {
      assert v.elements[k := v.elements[k]] == v.elements;
    }
  }

  lemma {:induction false} NothingInNull(p: seq<Token>)
    ensures Get(JNull, p).Some? <==> p == []
  {
  }

  /** `alreadyExist` is reported exactly when the pointer resolved before; the tree is then
      left as it was, and the value returned is the one that it resolved to. Otherwise the
      value returned is null. */
  lemma {:induction false} CreateLaw(v: Json, p: seq<Token>)
    requires Plausible(p)
    ensures var c := Create(v, p);
            && (c.exist <==> Get(v, p).Some?)
            && (c.exist ==> c.root == v)
            && HasWay(c.root, c.way)
            && At(c.root, c.way) == (if c.exist then Get(v, p).value else JNull)
    decreases |p|
  {
    hide PlaceOf, Put, Child;
    CreatedHasWay(v, p);
    if p != [] {
      var s := PlaceOf(v, p[0]);
      PlaceExists(v, p[0]);
      var slot := Slot(s.container, s.k);
      CreateLaw(slot, p[1..]);
      PutSame(s.container, s.k);
      NothingInNull(p[1..]);
      var c := Create(v, p);
      assert c.way[1..] == Create(slot, p[1..]).way;
    }
  }

  // ---------- Set

  /** Setting goes down the same way. */
  lemma {:induction false} SetStep(v: Json, p: seq<Token>, x: Json)
    ensures p == [] ==> Set(v, p, x) == x
    ensures p != [] ==>
              var s := PlaceOf(v, p[0]);
              Set(v, p, x) == Put(s.container, s.k, Set(Slot(s.container, s.k), p[1..], x))
  {
    hide PlaceOf;
    if p != [] {
      var s := PlaceOf(v, p[0]);
      var c, d := Create(v, p), Create(Slot(s.container, s.k), p[1..]);
      CreatedHasWay(v, p);
      CreatedHasWay(Slot(s.container, s.k), p[1..]);
      assert c.way[1..] == d.way && c.way[0] == s.k;
      PutTwice(s.container, s.k, d.root, Assign(d.root, d.way, x));
    }
  }

  lemma PutTwice(v: Json, k: nat, a: Json, b: Json)
    requires HasSlot(v, k)
    ensures Put(Put(v, k, a), k, b) == Put(v, k, b)
  {
    if v.JObject? {
      assert v.members[k := v.members[k].(value := a)][k := v.members[k].(value := b)]
          == v.members[k := v.members[k].(value := b)];
    } else {
      assert v.elements[k := a][k := b] == v.elements[k := b];
    }
  }

  /** A dash meets an array on the way. */
  predicate Appends(v: Json, p: seq<Token>)
    decreases |p|
  {
    p != [] && ((v.JArray? && IsDash(p[0])) || (Child(v, p[0]).Some? && Appends(Child(v, p[0]).value, p[1..])))
  }

  /** What is put into the place made for a token is found there, unless it was appended. */
  lemma {:induction false} PlaceFound(v: Json, t: Token, x: Json)
    requires IsDash(t) ==> t.index == INVALID_INDEX
    ensures var s := PlaceOf(v, t);
            Child(Put(s.container, s.k, x), t) == if v.JArray? && IsDash(t) then None else Some(x)
  {
    hide FindMember;
    var s := PlaceOf(v, t);
    if s.container.JObject? {
      FindAfterPut(s.container.members, t.name, s.k, x);
      if !s.exist {
        var c := Container(v, t);
        FindAtEnd(c.members, t.name);
      }
    }
  }

  lemma {:induction false} FindAfterPut(ms: seq<Member>, name: seq<byte>, k: nat, x: Json)
    requires k < |ms|
    ensures FindMember(ms[k := ms[k].(value := x)], name) == FindMember(ms, name)
  {
    FindIs(ms[k := ms[k].(value := x)], name, FindMember(ms, name));
  }

  lemma {:induction false} FindAtEnd(ms: seq<Member>, name: seq<byte>)
    requires FindMember(ms, name) == |ms|
    ensures FindMember(ms + [Member(name, JNull)], name) == |ms|
  {
    FindIs(ms + [Member(name, JNull)], name, |ms|);
  }

  /** The place is determined by what it promises. */
  lemma {:induction false} FindIs(ms: seq<Member>, name: seq<byte>, k: nat)
    requires k <= |ms| && (k < |ms| ==> ms[k].name == name) && forall j :: 0 <= j < k ==> ms[j].name != name
    ensures FindMember(ms, name) == k
  {
    var f := FindMember(ms, name);
    assert !(f < k) && !(k < f);
  }

  lemma {:induction false} NullAppendsNothing(p: seq<Token>)
    ensures !Appends(JNull, p)
  {
  }

  /** After a value is set the pointer resolves to it, exactly unless a dash met an array;
      then it does not resolve. */
  lemma {:induction false} SetLaw(v: Json, p: seq<Token>, x: Json)
    requires Plausible(p)
    ensures Get(Set(v, p, x), p) == if Appends(v, p) then None else Some(x)
    decreases |p|
  {
    hide PlaceOf, Put, Child, Set;
    SetStep(v, p, x);
    if p != [] {
      var s := PlaceOf(v, p[0]);
      var slot := Slot(s.container, s.k);
      PlaceExists(v, p[0]);
      PlaceFound(v, p[0], Set(slot, p[1..], x));
      SetLaw(slot, p[1..], x);
      NullAppendsNothing(p[1..]);
      DashIsNoChild(v, p[0]);
    }
  }

  /** The laws for every pointer that was parsed, in either notation, on every tree. */
  lemma {:induction false} ParsedPointerLaws(s: seq<byte>, v: Json, x: Json)
    requires Parse(s).Pointer?
    ensures var p := Parse(s).tokens;
            && (Create(v, p).exist <==> Get(v, p).Some?)
            && (Create(v, p).exist ==> Create(v, p).root == v)
            && Get(Set(v, p, x), p) == if Appends(v, p) then None else Some(x)
  {
    hide Parse, Create, Get, Set, Appends, Plausible;
    ParsedIsPlausible(s);
    CreateLaw(v, Parse(s).tokens);
    SetLaw(v, Parse(s).tokens, x);
  }

  lemma DashIsNoChild(v: Json, t: Token)
    requires IsDash(t) ==> t.index == INVALID_INDEX
    ensures v.JArray? && IsDash(t) ==> Child(v, t).None?
  {
  }

  /** What setting makes of one container: a dash appends to an array; an index stands for that
      element, before which nulls are added if it lies beyond; a name stands for the first member
      of that name, or a new one at the end. What cannot have such a child becomes an array for
      an index, and an object for a name. */
  lemma {:induction false} SetOne(v: Json, t: Token, x: Json)
    requires Plausible([t])
    ensures v.JArray? && t.name == [0x2D] ==> Set(v, [t], x) == JArray(v.elements + [x])
    ensures v.JArray? && t.index < |v.elements| && t.index != INVALID_INDEX ==>
              Set(v, [t], x) == JArray(v.elements[t.index := x])
    ensures v.JArray? && |v.elements| <= t.index && t.index != INVALID_INDEX ==>
              Set(v, [t], x) == JArray(v.elements + seq(t.index - |v.elements|, _ => JNull) + [x])
    ensures v.JObject? ==>
              forall k :: 0 <= k < |v.members| && v.members[k].name == t.name
                          && (forall j :: 0 <= j < k ==> v.members[j].name != t.name) ==>
                            Set(v, [t], x) == JObject(v.members[k := Member(t.name, x)])
    ensures v.JObject? && (forall m :: m in v.members ==> m.name != t.name) ==>
              Set(v, [t], x) == JObject(v.members + [Member(t.name, x)])
    ensures !v.JObject? && t.index == INVALID_INDEX && !(v.JArray? && t.name == [0x2D]) ==>
              Set(v, [t], x) == JObject([Member(t.name, x)])
    ensures !v.JObject? && !v.JArray? && t.index != INVALID_INDEX ==>
              Set(v, [t], x) == JArray(seq(t.index, _ => JNull) + [x])
  {
    hide FindMember, Set;
    assert [t][0] == t && [t][1..] == [];
    var s := PlaceOf(v, t);
    SetStep(v, [t], x);
    SetStep(Slot(s.container, s.k), [], x);
    assert Set(v, [t], x) == Put(s.container, s.k, x);
    if v.JObject? {
      SetMember(v, t, x);
    } else if v.JArray? && t.index != INVALID_INDEX {
      assert [t][0].name != [MINUS];
      SetElement(v.elements, t.index, x);
    } else if t.index != INVALID_INDEX {
      SetElement([], t.index, x);
      assert [] + seq(t.index, _ => JNull) == seq(t.index, _ => JNull);
    } else if !(v.JArray? && t.name == [MINUS]) {
      assert FindMember([], t.name) == 0;
    }
  }

  lemma SetElement(es: seq<Json>, n: nat, x: Json)
    ensures n >= |es| ==>
              (es + Nulls(n + 1 - |es|))[n := x] == es + seq(n - |es|, _ => JNull) + [x]
  {
  }

  lemma {:induction false} SetMember(v: Json, t: Token, x: Json)
    requires v.JObject?
    ensures var s := PlaceOf(v, t);
            && (forall k :: 0 <= k < |v.members| && v.members[k].name == t.name
                            && (forall j :: 0 <= j < k ==> v.members[j].name != t.name) ==>
                              Put(s.container, s.k, x) == JObject(v.members[k := Member(t.name, x)]))
            && ((forall m :: m in v.members ==> m.name != t.name) ==>
                  Put(s.container, s.k, x) == JObject(v.members + [Member(t.name, x)]))
  {
    hide FindMember;
    var s := PlaceOf(v, t);
    forall k | 0 <= k < |v.members| && v.members[k].name == t.name
               && forall j :: 0 <= j < k ==> v.members[j].name != t.name
      ensures Put(s.container, s.k, x) == JObject(v.members[k := Member(t.name, x)])
    {
      FindIs(v.members, t.name, k);
    }
    if forall m :: m in v.members ==> m.name != t.name {
      FindIs(v.members, t.name, |v.members|);
      assert (v.members + [Member(t.name, JNull)])[|v.members| := Member(t.name, x)] == v.members + [Member(t.name, x)];
    }
  }

  // ---------- What setting leaves alone

  /** Tokens that do not stand for the same child of a container. */
  predicate Separate(v: Json, t: Token, u: Token) {
    if v.JObject? then t.name != u.name else t.index != u.index
  }

  /** The container is replaced by one of the other kind. */
  predicate Converts(v: Json, t: Token) {
    !(v.JArray? && IsDash(t)) && Container(v, t) != v
  }

  /** The two ways part at a container that is not converted. */
  predicate Apart(v: Json, p: seq<Token>, q: seq<Token>)
    decreases |p|
  {
    && p != [] && q != []
    && (if SameToken(p[0], q[0]) then Child(v, p[0]).Some? && Apart(Child(v, p[0]).value, p[1..], q[1..])
        else Separate(v, p[0], q[0]) && !Converts(v, p[0]))
  }

  /** Tokens of different names part in every object, whether or not they are there. */
  lemma {:induction false} NamesPart(v: Json, t: Token, u: Token)
    requires v.JObject? && t.name != u.name
    ensures Apart(v, [t], [u])
    ensures Child(v, t).Some? ==> PartAtMember(v, [t], [u])
  {
  }

  lemma {:induction false} OtherChildKept(v: Json, t: Token, u: Token, x: Json)
    requires Separate(v, t, u) && !Converts(v, t) && Child(v, u).Some?
    ensures var s := PlaceOf(v, t); Child(Put(s.container, s.k, x), u) == Child(v, u)
  {
    hide FindMember;
    var s := PlaceOf(v, t);
    if v.JObject? {
      var k := FindMember(v.members, u.name);
      var ms := Put(s.container, s.k, x).members;
      FindIs(ms, u.name, k);
    }
  }

  /** A pointer that resolved, and parts from the one that is set at a container that keeps
      its kind, still resolves to the same value. */
  lemma {:induction false} SetKeepsOthers(v: Json, p: seq<Token>, q: seq<Token>, x: Json)
    requires Plausible(p) && Apart(v, p, q) && Get(v, q).Some?
    ensures Get(Set(v, p, x), q) == Get(v, q)
    decreases |p|
  {
    hide PlaceOf, Put, Child, Set, Converts, Separate;
    SetStep(v, p, x);
    var s := PlaceOf(v, p[0]);
    var slot := Slot(s.container, s.k);
    PlaceExists(v, p[0]);
    DashIsNoChild(v, p[0]);
    if SameToken(p[0], q[0]) {
      SameChild(v, p[0], q[0]);
      SameChild(Set(v, p, x), p[0], q[0]);
      PlaceFound(v, p[0], Set(slot, p[1..], x));
      SetKeepsOthers(slot, p[1..], q[1..], x);
    } else {
      OtherChildKept(v, p[0], q[0], Set(slot, p[1..], x));
    }
  }

  // ---------- Erase

  datatype Erased = Erased(root: Json, found: bool)

  function Without<T>(s: seq<T>, k: nat): seq<T>
    requires k < |s|
  {
    s[..k] + s[k + 1..]
  }

  /** A container without the child that a token stands for. */
  function WithoutChild(v: Json, t: Token): Json
    requires Child(v, t).Some?
  {
    if v.JObject? then JObject(Without(v.members, FindMember(v.members, t.name)))
    else JArray(Without(v.elements, t.index))
  }

  /** The position of a child that exists. */
  function Position(v: Json, t: Token): (k: nat)
    requires Child(v, t).Some?
    ensures HasSlot(v, k) && Slot(v, k) == Child(v, t).value
  {
    if v.JObject? then FindMember(v.members, t.name) else t.index
  }

  function Erase(v: Json, p: seq<Token>): Erased
    decreases |p|
  {
    if p == [] || Child(v, p[0]).None? then Erased(v, false)
    else if |p| == 1 then Erased(WithoutChild(v, p[0]), true)
    else
      var e := Erase(Child(v, p[0]).value, p[1..]);
      Erased(Put(v, Position(v, p[0]), e.root), e.found)
  }

  lemma {:induction false} ChildAfterPut(v: Json, t: Token, x: Json)
    requires Child(v, t).Some?
    ensures Child(Put(v, Position(v, t), x), t) == Some(x)
  {
    hide FindMember;
    if v.JObject? {
      FindAfterPut(v.members, t.name, Position(v, t), x);
    }
  }

  /** Erasing succeeds exactly when there is something to erase that is not the root, and
      otherwise changes nothing. Then the parent is left with that child taken out, which
      is all that changes. */
  lemma {:induction false} EraseLaw(v: Json, p: seq<Token>)
    ensures var e := Erase(v, p);
            && (e.found <==> p != [] && Get(v, p).Some?)
            && (!e.found ==> e.root == v)
    decreases |p|
  {
    hide Child, Put, WithoutChild, Position;
    if |p| > 1 && Child(v, p[0]).Some? {
      EraseLaw(Child(v, p[0]).value, p[1..]);
      PutSame(v, Position(v, p[0]));
    }
  }

  lemma {:induction false} EraseTakesOut(v: Json, p: seq<Token>)
    requires p != [] && Get(v, p).Some?
    ensures var parent, last := p[..|p| - 1], p[|p| - 1];
            && Get(v, parent).Some? && Child(Get(v, parent).value, last) == Get(v, p)
            && Get(Erase(v, p).root, parent) == Some(WithoutChild(Get(v, parent).value, last))
    decreases |p|
  {
    hide Child, Put, WithoutChild, Position;
    var parent, last := p[..|p| - 1], p[|p| - 1];
    if |p| > 1 {
      var c := Child(v, p[0]).value;
      EraseTakesOut(c, p[1..]);
      assert p[1..][..|p| - 2] == parent[1..];
      ChildAfterPut(v, p[0], Erase(c, p[1..]).root);
    } else {
      assert p[1..] == [];
    }
  }

  /** What is erased is all that changes: pointers that part from it keep their values. */
  lemma {:induction false} EraseKeepsOthers(v: Json, p: seq<Token>, q: seq<Token>)
    requires Get(v, p).Some? && Get(v, q).Some? && PartAtMember(v, p, q)
    ensures Get(Erase(v, p).root, q) == Get(v, q)
    decreases |p|
  {
    hide Child, Put, WithoutChild, Position;
    if SameToken(p[0], q[0]) {
      SameChild(v, p[0], q[0]);
      SameChild(Erase(v, p).root, p[0], q[0]);
      var c := Child(v, p[0]).value;
      EraseKeepsOthers(c, p[1..], q[1..]);
      ChildAfterPut(v, p[0], Erase(c, p[1..]).root);
    } else if |p| == 1 {
      OtherMemberKept(v, p[0], q[0]);
    } else {
      OtherAfterPut(v, p[0], q[0], Erase(Child(v, p[0]).value, p[1..]).root);
    }
  }

  /** The two ways part at an object, or at an array whose elements stay in place. */
  predicate PartAtMember(v: Json, p: seq<Token>, q: seq<Token>)
    decreases |p|
  {
    && p != [] && q != [] && Child(v, p[0]).Some?
    && (if SameToken(p[0], q[0]) then |p| > 1 && PartAtMember(Child(v, p[0]).value, p[1..], q[1..])
        else Separate(v, p[0], q[0]) && (v.JArray? && |p| == 1 ==> q[0].index < p[0].index))
  }

  lemma {:induction false} OtherMemberKept(v: Json, t: Token, u: Token)
    requires Child(v, t).Some? && Child(v, u).Some? && Separate(v, t, u) && (v.JArray? ==> u.index < t.index)
    ensures Child(WithoutChild(v, t), u) == Child(v, u)
  {
    hide FindMember;
    if v.JObject? {
      var j, k := FindMember(v.members, t.name), FindMember(v.members, u.name);
      FindIs(Without(v.members, j), u.name, if k < j then k else k - 1);
    }
  }

  lemma {:induction false} OtherAfterPut(v: Json, t: Token, u: Token, x: Json)
    requires Child(v, t).Some? && Separate(v, t, u)
    ensures Child(Put(v, Position(v, t), x), u) == Child(v, u)
  {
    hide FindMember;
    if v.JObject? {
      FindAfterPut(v.members, u.name, Position(v, t), x);
    }
  }

  lemma {:induction false} GetJoin(v: Json, p: seq<Token>, q: seq<Token>)
    ensures Get(v, p + q) == if Get(v, p).Some? then Get(Get(v, p).value, q) else None
    decreases |p|
  {
    hide Child;
    var all := p + q;
    if p == [] {
      assert all == q;
    } else {
      assert all[0] == p[0] && all[1..] == p[1..] + q;
      if Child(v, p[0]).Some? {
        GetJoin(Child(v, p[0]).value, p[1..], q);
      }
    }
  }

  /** What lay behind an erased element, and all below it, is found one place further down. */
  lemma {:induction false} EraseMovesDown(v: Json, parent: seq<Token>, t: Token, u: Token, u': Token, rest: seq<Token>)
    requires Get(v, parent + [t]).Some? && Get(v, parent).Some? && Get(v, parent).value.JArray?
    requires t.index < u.index < INVALID_INDEX && u'.index == u.index - 1
    ensures Get(Erase(v, parent + [t]).root, parent + ([u'] + rest)) == Get(v, parent + ([u] + rest))
  {
    hide Erase;
    var p := parent + [t];
    var es := Get(v, parent).value.elements;
    EraseTakesOut(v, p);
    assert p[..|p| - 1] == parent && p[|p| - 1] == t;
    GetJoin(v, parent, [u] + rest);
    GetJoin(Erase(v, p).root, parent, [u'] + rest);
    assert ([u] + rest)[1..] == rest && ([u'] + rest)[1..] == rest;
    assert u.index < |es| ==> Without(es, t.index)[u'.index] == es[u.index];
  }

  /** There is another child for the token after the first one. */
  predicate HasNext(v: Json, t: Token)
    requires Child(v, t).Some?
  {
    if v.JObject? then exists k :: Position(v, t) < k < |v.members| && v.members[k].name == t.name
    else t.index + 1 < |v.elements|
  }

  /** After erasing, the pointer resolves again exactly if a member of the same name or an
      element followed. */
  lemma {:induction false} EraseThenGet(v: Json, p: seq<Token>)
    requires p != [] && Get(v, p).Some?
    ensures Get(v, p[..|p| - 1]).Some? && Child(Get(v, p[..|p| - 1]).value, p[|p| - 1]).Some?
    ensures Get(Erase(v, p).root, p).Some? <==> HasNext(Get(v, p[..|p| - 1]).value, p[|p| - 1])
  {
    hide Child, WithoutChild, HasNext, Erase;
    EraseTakesOut(v, p);
    var parent, last := p[..|p| - 1], p[|p| - 1];
    GetJoin(Erase(v, p).root, parent, [last]);
    GetOne(WithoutChild(Get(v, parent).value, last), last);
    assert parent + [last] == p;
    NextAfter(Get(v, parent).value, last);
  }

  lemma {:induction false} GetOne(v: Json, t: Token)
    ensures Get(v, [t]) == Child(v, t)
  {
    hide Child;
    assert [t][1..] == [];
  }

  lemma {:induction false} NextAfter(v: Json, t: Token)
    requires Child(v, t).Some?
    ensures Child(WithoutChild(v, t), t).Some? <==> HasNext(v, t)
  {
    hide FindMember;
    if v.JObject? {
      var j := FindMember(v.members, t.name);
      var ms := Without(v.members, j);
      var k := FindMember(ms, t.name);
      if k < |ms| {
        assert v.members[k + 1].name == t.name;
      } else {
        assert forall i :: j < i < |v.members| ==> v.members[i] == ms[i - 1];
      }
    }
  }

  // ---------- The walk of `Get`

  /** `Get`, which also tells the first token that does not resolve. */
  method Resolve(root: Json, p: seq<Token>) returns (r: Option<Json>, unresolved: nat)
    ensures r == Get(root, p)
    ensures r.None? ==>
              && unresolved < |p| && Get(root, p[..unresolved]).Some?
              && Child(Get(root, p[..unresolved]).value, p[unresolved]).None?
  {
    hide Child;
    var v, k := root, 0;
    unresolved := |p|;
    assert p[0..] == p && p[..0] == [];
    while k < |p|
      invariant 0 <= k <= |p| && Get(root, p[..k]) == Some(v) && Get(v, p[k..]) == Get(root, p)
    {
      assert p[k..][0] == p[k] && p[k..][1..] == p[k + 1..];
      var c := Child(v, p[k]);
      if c.None? {
        return None, k;
      }
      GetJoin(root, p[..k], [p[k]]);
      GetOne(v, p[k]);
      assert p[..k] + [p[k]] == p[..k + 1];
      v, k := c.value, k + 1;
    }
    r := Some(v);
  }
}
