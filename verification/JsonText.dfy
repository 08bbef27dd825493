/** The text a JSON reader walks over, and what it skips between tokens. */
module JsonText {
  import opened Words

  const NUL: byte := 0
  const QUOTE: byte := 0x22
  const STAR: byte := 0x2A
  const PLUS: byte := 0x2B
  const COMMA: byte := 0x2C
  const MINUS: byte := 0x2D
  const DOT: byte := 0x2E
  const SLASH: byte := 0x2F
  const ZERO: byte := 0x30
  const NINE: byte := 0x39
  const COLON: byte := 0x3A
  const LBRACKET: byte := 0x5B
  const BACKSLASH: byte := 0x5C
  const RBRACKET: byte := 0x5D
  const LBRACE: byte := 0x7B
  const RBRACE: byte := 0x7D
  const NEWLINE: byte := 0x0A

  /** The byte at the cursor; the text ends with a zero byte. */
  function Peek(s: seq<byte>, i: nat): byte {
    if i < |s| then s[i] else NUL
  }

  predicate IsDigit(c: byte) {
    ZERO <= c <= NINE
  }

  datatype Option<T> = None | Some(value: T)

  /** What is written for a part of a string, and where the next part starts. */
  datatype Step = Step(next: nat, text: seq<byte>) | Invalid

  function Ahead(text: seq<byte>, r: Step): Step {
    if r.Step? then Step(r.next, text + r.text) else Invalid
  }

  lemma NothingAhead(r: Step)
    ensures Ahead([], r) == r
  {
    if r.Step? {
      assert [] + r.text == r.text;
    }
  }

  predicate IsSpace(c: byte) {
    c == 0x20 || c == 0x0A || c == 0x0D || c == 0x09
  }

  /** The first place from `i` on that is not white space. */
  function SkipSpace(s: seq<byte>, i: nat): (j: nat)
    requires i <= |s|
    ensures i <= j <= |s| && !IsSpace(Peek(s, j))
    ensures forall k :: i <= k < j ==> IsSpace(s[k])
    decreases |s| - i
  {
    if IsSpace(Peek(s, i)) then SkipSpace(s, i + 1) else i
  }

  /** The place after the end of a block comment, if it ends. */
  function BlockCommentEnd(s: seq<byte>, i: nat): (r: Option<nat>)
    requires i <= |s|
    ensures r.Some? ==> i < r.value <= |s|
    decreases |s| - i
  {
    if Peek(s, i) == NUL then None
    else if s[i] == STAR && Peek(s, i + 1) == SLASH then Some(i + 2)
    else BlockCommentEnd(s, i + 1)
  }

  /** The place after the end of a line. */
  function LineEnd(s: seq<byte>, i: nat): (j: nat)
    requires i <= |s|
    ensures i <= j <= |s|
    decreases |s| - i
  {
    if Peek(s, i) == NUL then i else if s[i] == NEWLINE then i + 1 else LineEnd(s, i + 1)
  }

  /** The end of the comment whose slash is at `i`. */
  function CommentEnd(s: seq<byte>, i: nat): (r: Option<nat>)
    requires i < |s|
    ensures r.Some? ==> i < r.value <= |s|
  {
    if Peek(s, i + 1) == STAR then BlockCommentEnd(s, i + 2)
    else if Peek(s, i + 1) == SLASH then Some(LineEnd(s, i + 2))
    else None
  }

  /** Skips white space, and comments if they are allowed. */
  function Skip(s: seq<byte>, comments: bool, i: nat): (r: Option<nat>)
    requires i <= |s|
    ensures r.Some? ==> i <= r.value <= |s|
    decreases |s| - i
  {
    var j := SkipSpace(s, i);
    if comments && Peek(s, j) == SLASH then
      match CommentEnd(s, j)
      case None => None
      case Some(k) => Skip(s, comments, k)
    else Some(j)
  }
}
