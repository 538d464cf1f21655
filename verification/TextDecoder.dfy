/** ThingSetTextDecoder on lists of integers: a cursor over the tokens and a cursor over the characters. */
module TextDecoder {
  import opened Jsmn
  import opened JsmnParser
  import opened TextValue
  import opened Wrappers

  // ----- strtol, strtoul and strtoull

  /** Memory behind the text holds no character that matters. */
  function CharAt(mem: string, i: int): char {
    if 0 <= i < |mem| then mem[i] else '\0'
  }

  datatype Scanned = Scanned(value: int, end: int)

  /** The digits from `i` on, behind digits worth `acc`. */
  function Digits(mem: string, i: int, acc: nat): (r: Scanned)
    ensures r.end >= i && r.value >= 0
    decreases |mem| - i
  {
    if IsDigit(CharAt(mem, i)) then Digits(mem, i + 1, 10 * acc + (mem[i] - '0') as int) else Scanned(acc, i)
  }

  /** The width of what strtol (long), strtoul (unsigned long) or strtoull (64 bits) return. */
  function Width(t: IntType, longBits: nat): nat { if t == U64 then 64 else longBits }

  function Clamp(n: int, bits: nat): int
    requires bits > 0
  {
    if n >= Pow2(bits - 1) then Pow2(bits - 1) - 1 else if n < -Pow2(bits - 1) then -Pow2(bits - 1) else n
  }

  /** The library function for the type: without digits nothing is consumed; out of range values are clamped, and an
      unsigned conversion negates modulo its width. */
  function Strto(mem: string, i: int, t: IntType, longBits: nat): Scanned
    requires longBits > 0
  {
    var negative := CharAt(mem, i) == '-';
    var first := if negative || CharAt(mem, i) == '+' then i + 1 else i;
    var digits := Digits(mem, first, 0);
    if digits.end == first then Scanned(0, i)
    else if Signed(t) then
      Scanned(Clamp(if negative then -digits.value else digits.value, Width(t, longBits)), digits.end)
    else
      var modulus := Pow2(Width(t, longBits));
      if digits.value >= modulus then Scanned(modulus - 1, digits.end)
      else Scanned(if negative then (modulus - digits.value) % modulus else digits.value, digits.end)
  }

  /** static_cast to the type */
  function Cast(t: IntType, n: int): int {
    if Signed(t) then (n + Pow2(Bits(t) - 1)) % Pow2(Bits(t)) - Pow2(Bits(t) - 1) else n % Pow2(Bits(t))
  }

  // ----- decoding

  /** _tokenIndex and _bufferElemPtr */
  datatype Cursor = Cursor(token: nat, elem: int)

  datatype Result = Result(value: Option<Value>, cursor: Cursor)

  /** expectType: the character cursor jumps to the token. */
  function Expect(tokens: seq<Token>, kind: Kind, c: Cursor): Option<Cursor> {
    if c.token >= |tokens| || tokens[c.token].kind != kind then None
    else Some(Cursor(c.token + 1, tokens[c.token].start + if kind == Array || kind == Object then 1 else 0))
  }

  /** What decoding into a variable of the given shape yields. */
  function DecodeValue(mem: string, tokens: seq<Token>, longBits: nat, s: Shape, c: Cursor): Result
    requires longBits > 0
    decreases s, 1, 0
  {
    match s
    case Leaf(t) =>
      (match Expect(tokens, Primitive, c)
       case None => Result(None, c)
       case Some(c') =>
         var number := Strto(mem, c'.elem, t, longBits);
         Result(Some(Int(t, Cast(t, number.value))), c'.(elem := number.end)))
    case Items(_) =>
      match Expect(tokens, Array, c)
      case None => Result(None, c)
      case Some(c') => DecodeRest(mem, tokens, longBits, s, [], c')
  }

  /** The elements behind `done`, and the closing bracket. */
  function DecodeRest(mem: string, tokens: seq<Token>, longBits: nat, s: Shape, done: seq<Value>, c: Cursor): Result
    requires longBits > 0 && s.Items? && |done| <= |s.elements|
    decreases s, 0, |s.elements| - |done|
  {
    if |done| == |s.elements| then
      if CharAt(mem, c.elem) == ']' then Result(Some(List(done)), c.(elem := c.elem + 1)) else Result(None, c)
    else
      var r := DecodeValue(mem, tokens, longBits, s.elements[|done|], c);
      if r.value == None then Result(None, r.cursor)
      else DecodeRest(mem, tokens, longBits, s, done + [r.value.value], r.cursor)
  }

  /** The token array as the decoder sees it, whether or not the parse succeeded. */
  function TokensSeen(text: string, capacity: nat): Parser { Jsmn.Parse(text, capacity, Init).parser }

  lemma {:induction false} ParsingOnChangesNothing(js: string, num: nat, p: Parser)
    requires p.pos <= |js| && p.toksuper < |p.tokens|
    ensures var q := Jsmn.Parse(js, num, p).parser;
            q.pos <= |js| && q.toksuper < |q.tokens| && Jsmn.Parse(js, num, q).parser == q
    decreases |js| - p.pos
  {
    if !Ends(js, p.pos) && Step(js, num, p).Going? {
      ParsingOnChangesNothing(js, num, Step(js, num, p).parser);
    }
  }

  class Decoder {
    const mem: string
    const size: nat
    const longBits: nat
    const tokens: array<Token>
    const parser: JsmnParser
    var tokenIndex: nat
    var elemPtr: int

    ghost predicate Valid()
      reads this, parser, tokens
    {
      && size <= |mem| && longBits > 0
      && parser.Fits(tokens) && Sane(parser.View(tokens))
      && (parser.View(tokens) == Init || parser.View(tokens) == Seen())
    }

    ghost function Seen(): Parser
      requires size <= |mem|
    {
      TokensSeen(mem[..size], tokens.Length)
    }

    ghost function At(): Cursor
      reads this
    {
      Cursor(tokenIndex, elemPtr)
    }

    constructor (mem: string, size: nat, capacity: nat, longBits: nat)
      requires size <= |mem| && longBits > 0
      ensures Valid() && fresh(parser) && fresh(tokens) && At() == Cursor(0, 0)
      ensures this.mem == mem && this.size == size && tokens.Length == capacity && this.longBits == longBits
    {
      this.mem, this.size, this.longBits := mem, size, longBits;
      tokens := new Token[capacity](_ => Token(Primitive, 0, 0, 0));
      parser := new JsmnParser();
      tokenIndex, elemPtr := 0, 0;
    }

    /** The result of the parse is ignored, and without a single token it is done again. */
    method GetTokens()
      requires Valid()
      modifies parser, tokens
      ensures Valid() && parser.View(tokens) == Seen()
    {
      if parser.toknext == 0 {
        ParsingOnChangesNothing(mem[..size], tokens.Length, Init);
        var _, _ := parser.Parse(mem[..size], tokens);
      }
    }

    method ExpectType(kind: Kind) returns (ok: bool)
      requires Valid()
      modifies this`tokenIndex, this`elemPtr, parser, tokens
      ensures Valid()
      ensures match Expect(Seen().tokens, kind, old(At()))
              case Some(c) => ok && At() == c
              case None => !ok && At() == old(At())
    {
      GetTokens();
      if tokenIndex >= parser.toknext || tokens[tokenIndex].kind != kind {
        return false;
      }
      var offset := 0;
      if kind == Array || kind == Object {
        offset := 1;
      }
      elemPtr := tokens[tokenIndex].start + offset;
      tokenIndex := tokenIndex + 1;
      return true;
    }

    method DecodeListEnd() returns (ok: bool)
      modifies this`elemPtr
      ensures ok == (CharAt(mem, old(elemPtr)) == ']')
      ensures elemPtr == old(elemPtr) + if ok then 1 else 0
    {
      if CharAt(mem, elemPtr) == ']' {
        elemPtr := elemPtr + 1;
        return true;
      }
      return false;
    }

    method DecodePrimitive(t: IntType) returns (r: Option<Value>)
      requires Valid()
      modifies this`tokenIndex, this`elemPtr, parser, tokens
      ensures Valid()
      ensures Result(r, At()) == DecodeValue(mem, Seen().tokens, longBits, Leaf(t), old(At()))
    {
      var ok := ExpectType(Primitive);
      if !ok {
        return None;
      }
      var number := Strto(mem, elemPtr, t, longBits);
      elemPtr := number.end;
      return Some(Int(t, Cast(t, number.value)));
    }

    /** The array template: stops at the first element that fails. */
    method DecodeArray(s: Shape) returns (r: Option<Value>)
      requires Valid() && s.Items?
      modifies this`tokenIndex, this`elemPtr, parser, tokens
      ensures Valid()
      ensures Result(r, At()) == DecodeValue(mem, Seen().tokens, longBits, s, old(At()))
      decreases s, 0
    {
      var ok := ExpectType(Array);
      if !ok {
        return None;
      }
      var done := [];
      for i := 0 to |s.elements|
        invariant Valid() && |done| == i
        invariant DecodeValue(mem, Seen().tokens, longBits, s, old(At()))
               == DecodeRest(mem, Seen().tokens, longBits, s, done, At())
      {
        var element := Decode(s.elements[i]);
        if element == None {
          return None;
        }
        done := done + [element.value];
      }
      ok := DecodeListEnd();
      return if ok then Some(List(done)) else None;
    }

    method Decode(s: Shape) returns (r: Option<Value>)
      requires Valid()
      modifies this`tokenIndex, this`elemPtr, parser, tokens
      ensures Valid()
      ensures Result(r, At()) == DecodeValue(mem, Seen().tokens, longBits, s, old(At()))
      decreases s, 1
    {
      match s
      case Leaf(t) => r := DecodePrimitive(t);
      case Items(_) => r := DecodeArray(s);
    }
  }
}
