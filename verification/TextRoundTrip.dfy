/** Printing a nested list of integers and reading it back. */
module TextRoundTrip {
  import opened Jsmn
  import opened TextDecoder
  import opened TextEncoder
  import opened TextTokens
  import opened TextValue
  import opened Wrappers

  function Min(a: int, b: int): int { if a < b then a else b }

  function Max(a: int, b: int): int { if a > b then a else b }

  /** The signed integer of this width that is nearest to n. */
  function Nearest(n: int, bits: nat): int
    requires bits > 0
  {
    Max(-Pow2(bits - 1), Min(n, Pow2(bits - 1) - 1))
  }

  /** A 64-bit signed integer is read with strtol, whose result is a long. */
  function Clamped(v: Value, longBits: nat): Value
    requires longBits > 0
  {
    match v
    case Int(t, n) => if t == I64 then Int(t, Nearest(n, longBits)) else v
    case List(items) => List(seq(|items|, i requires 0 <= i < |items| => Clamped(items[i], longBits)))
  }

  predicate FitsLong(v: Value, longBits: nat)
    requires longBits > 0
  {
    match v
    case Int(t, n) => t == I64 ==> InRange(n, longBits, true)
    case List(items) => forall item <- items :: FitsLong(item, longBits)
  }

  /** What is read back is the value itself exactly if every 64-bit signed integer in it fits a long. */
  lemma {:induction false} ReadBackExactlyIfLongsFit(v: Value, longBits: nat)
    requires longBits > 0
    ensures Clamped(v, longBits) == v <==> FitsLong(v, longBits)
  {
    match v
    case Int(t, n) =>
    case List(items) =>
      forall i | 0 <= i < |items| ensures Clamped(items[i], longBits) == items[i] <==> FitsLong(items[i], longBits) {
        ReadBackExactlyIfLongsFit(items[i], longBits);
      }
      var read := Clamped(v, longBits).items;
      assert read == items <==> forall i | 0 <= i < |items| :: Clamped(items[i], longBits) == items[i] by {
        assert forall i | 0 <= i < |items| :: read[i] == Clamped(items[i], longBits);
      }
  }

  // ----- numbers

  lemma {:induction false} DecimalIsRead(mem: string, i: nat, n: nat)
    requires At(mem, i, Decimal(n))
    ensures Digits(mem, i, 0) == Digits(mem, i + |Decimal(n)|, n)
  {
    hide Digits;
    if n < 10 {
      assert mem[i] == Decimal(n)[0];
      DigitIsRead(mem, i, 0, n);
    } else {
      var last := i + |Decimal(n / 10)|;
      AtSplit(mem, i, Decimal(n / 10), [Digit(n % 10)]);
      DecimalIsRead(mem, i, n / 10);
      assert mem[last] == [Digit(n % 10)][0];
      DigitIsRead(mem, last, n / 10, n % 10);
    }
  }

  lemma DigitIsRead(mem: string, i: nat, acc: nat, d: nat)
    requires i < |mem| && d < 10 && mem[i] == Digit(d)
    ensures Digits(mem, i, acc) == Digits(mem, i + 1, 10 * acc + d)
  {
  }

  lemma NumberIsRead(mem: string, i: nat, n: int, t: IntType, longBits: nat)
    requires longBits >= 32 && At(mem, i, Number(n)) && !IsDigit(CharAt(mem, i + |Number(n)|))
    requires InRange(n, Bits(t), Signed(t))
    ensures Strto(mem, i, t, longBits)
            == Scanned(if Signed(t) then Nearest(n, longBits) else n, i + |Number(n)|)
  {
    SignAndDigits(mem, i, n);
    WidthSuffices(t, longBits);
    hide Digits, Pow2, Decimal, Number;
  }

  lemma DigitsEnd(mem: string, i: int, acc: nat)
    requires !IsDigit(CharAt(mem, i))
    ensures Digits(mem, i, acc) == Scanned(acc, i)
  {
  }

  lemma {:induction false} Pow2Grows(a: nat, b: nat)
    requires a <= b
    ensures Pow2(a) <= Pow2(b)
    decreases b - a
  {
    if a < b {
      Pow2Grows(a, b - 1);
    }
  }

  /** The unsigned conversions are wide enough for their types. */
  lemma WidthSuffices(t: IntType, longBits: nat)
    requires longBits >= 32
    ensures !Signed(t) ==> Pow2(Bits(t)) <= Pow2(Width(t, longBits))
    ensures Signed(t) && t != I64 ==> Pow2(Bits(t) - 1) <= Pow2(longBits - 1)
  {
    if !Signed(t) {
      Pow2Grows(Bits(t), Width(t, longBits));
    } else if t != I64 {
      Pow2Grows(Bits(t) - 1, longBits - 1);
    }
  }

  lemma CastKeeps(t: IntType, n: int)
    requires InRange(n, Bits(t), Signed(t))
    ensures Cast(t, n) == n
  {
    var half := Pow2(Bits(t) - 1);
    assert Pow2(Bits(t)) == 2 * half;
    hide Pow2;
    if Signed(t) {
      SmallModulo(n + half, 2 * half);
    } else {
      SmallModulo(n, 2 * half);
    }
  }

  lemma SmallModulo(n: int, m: int)
    requires 0 <= n < m
    ensures n % m == n
  {
  }

  // ----- numbers of any size

  ghost predicate Congruent(a: int, b: int, m: int) { exists q: int :: a == b + q * m }

  /** What the conversion function for the type can say of n: signed, the nearest value of its width; unsigned, n
      itself up to its modulus if its absolute value is below that, and the greatest value otherwise. */
  function Converted(t: IntType, n: int, longBits: nat): int
    requires longBits > 0
  {
    var w := Width(t, longBits);
    if Signed(t) then Nearest(n, w) else if -Pow2(w) < n < Pow2(w) then n else Pow2(w) - 1
  }

  lemma NumberIsConverted(mem: string, i: nat, n: int, t: IntType, longBits: nat)
    requires longBits > 0 && At(mem, i, Number(n)) && !IsDigit(CharAt(mem, i + |Number(n)|))
    ensures var r := Strto(mem, i, t, longBits);
            && r.end == i + |Number(n)|
            && if Signed(t) then r.value == Converted(t, n, longBits)
               else 0 <= r.value < Pow2(Width(t, longBits))
                    && Congruent(r.value, Converted(t, n, longBits), Pow2(Width(t, longBits)))
  {
    SignAndDigits(mem, i, n);
    assert Width(t, longBits) > 0;
    var w := Pow2(Width(t, longBits));
    var r := Strto(mem, i, t, longBits);
    assert r.end == i + |Number(n)|;
    if Signed(t) {
      hide Digits, Decimal, Number;
    } else {
      hide Digits, Pow2, Decimal, Number;
      if -w < n < 0 {
        SmallModulo(w + n, w);
        assert r.value == n + 1 * w;
      } else {
        Itself(r.value, w);
      }
    }
  }

  /** The sign and the digits of a number. */
  lemma SignAndDigits(mem: string, i: nat, n: int)
    requires At(mem, i, Number(n)) && !IsDigit(CharAt(mem, i + |Number(n)|))
    ensures (CharAt(mem, i) == '-' <==> n < 0) && CharAt(mem, i) != '+'
    ensures Digits(mem, if n < 0 then i + 1 else i, 0) == Scanned(if n < 0 then -n else n, i + |Number(n)|)
    ensures |Number(n)| > if n < 0 then 1 else 0
  {
    assert mem[i] == Number(n)[0];
    hide Digits;
    if n < 0 {
      AtSplit(mem, i, "-", Decimal(-n));
      DecimalIsRead(mem, i + 1, -n);
      DigitsEnd(mem, i + |Number(n)|, -n);
    } else {
      assert Decimal(n)[0] in Decimal(n);
      DecimalIsRead(mem, i, n);
      DigitsEnd(mem, i + |Number(n)|, n);
    }
  }

  lemma Itself(a: int, m: int)
    ensures Congruent(a, a, m)
  {
    assert a == a + 0 * m;
  }

  lemma CongruentTwice(a: int, b: int, c: int, m: int, k: int)
    requires Congruent(a, b, m) && Congruent(b, c, k * m)
    ensures Congruent(a, c, m)
  {
    var q: int :| a == b + q * m;
    var p: int :| b == c + p * (k * m);
    assert a == c + (p * k + q) * m;
  }

  lemma {:induction false} Pow2Divides(a: nat, b: nat) returns (k: nat)
    requires a <= b
    ensures Pow2(b) == k * Pow2(a)
    decreases b - a
  {
    if a == b {
      k := 1;
    } else {
      k := Pow2Divides(a, b - 1);
      assert 2 * (k * Pow2(a)) == (2 * k) * Pow2(a);
      k := 2 * k;
    }
  }

  /** static_cast gives the value of the type that is congruent. */
  lemma CastIsCongruent(t: IntType, n: int)
    ensures InRange(Cast(t, n), Bits(t), Signed(t)) && Congruent(Cast(t, n), n, Pow2(Bits(t)))
  {
    var m, half := Pow2(Bits(t)), Pow2(Bits(t) - 1);
    assert m == 2 * half;
    hide Pow2;
    if Signed(t) {
      Remainder(n + half, m);
      var q: int :| (n + half) % m == n + half + q * m;
      assert Cast(t, n) == n + q * m;
    } else {
      Remainder(n, m);
    }
  }

  lemma Remainder(n: int, m: int)
    requires m > 0
    ensures 0 <= n % m < m && Congruent(n % m, n, m)
  {
    assert n % m == n + (-(n / m)) * m;
  }

  /** Whatever number stands there, an integer of any type reads the value of the type that is congruent to what the
      conversion function can say of it: "300" is 44 for eight bits. */
  lemma AnyNumberDecodes(mem: string, tokens: seq<Token>, longBits: nat, n: int, t: IntType, c: Cursor, p: nat)
    requires longBits >= 32 && At(mem, p, Number(n)) && !IsDigit(CharAt(mem, p + |Number(n)|))
    requires At(tokens, c.token, [Token(Primitive, p, p + |Number(n)|, 0)])
    ensures var r := DecodeValue(mem, tokens, longBits, Leaf(t), c);
            && r.cursor == Cursor(c.token + 1, p + |Number(n)|)
            && r.value.Some? && r.value.value.Int? && r.value.value.t == t
            && InRange(r.value.value.n, Bits(t), Signed(t))
            && Congruent(r.value.value.n, Converted(t, n, longBits), Pow2(Bits(t)))
  {
    assert tokens[c.token] == [Token(Primitive, p, p + |Number(n)|, 0)][0];
    NumberIsConverted(mem, p, n, t, longBits);
    var x := Strto(mem, p, t, longBits).value;
    CastIsCongruent(t, x);
    if Signed(t) {
      assert x == Converted(t, n, longBits);
    } else {
      var k := Pow2Divides(Bits(t), Width(t, longBits));
      CongruentTwice(Cast(t, x), x, Converted(t, n, longBits), Pow2(Bits(t)), k);
    }
    hide Strto, Cast, Pow2, Congruent, Converted, InRange;
  }

  /** A 64-bit signed integer is read as itself if it fits a long, and as the nearest end of its range otherwise. */
  lemma LongIsRead(mem: string, tokens: seq<Token>, longBits: nat, n: int, c: Cursor, p: nat)
    requires longBits >= 32 && InRange(n, 64, true) && At(mem, p, Number(n)) && !IsDigit(CharAt(mem, p + |Number(n)|))
    requires At(tokens, c.token, [Token(Primitive, p, p + |Number(n)|, 0)])
    ensures var r := DecodeValue(mem, tokens, longBits, Leaf(I64), c);
            r.value == Some(Int(I64, if n >= Pow2(longBits - 1) then Pow2(longBits - 1) - 1
                                     else if n < -Pow2(longBits - 1) then -Pow2(longBits - 1) else n))
  {
    hide Pow2, DecodeValue;
    var v := Int(I64, n);
    assert TokensOf(v, p) == [Token(Primitive, p, p + |Number(n)|, 0)];
    NumberDecodes(mem, tokens, longBits, v, c, p);
    assert Pow2(longBits - 1) > 0;
  }

  // ----- values

  lemma NumberDecodes(mem: string, tokens: seq<Token>, longBits: nat, v: Value, c: Cursor, p: nat)
    requires v.Int? && longBits >= 32 && Typed(v)
    requires At(mem, p, Text(v)) && !IsDigit(CharAt(mem, p + |Text(v)|))
    requires At(tokens, c.token, TokensOf(v, p))
    ensures DecodeValue(mem, tokens, longBits, ShapeOf(v), c)
            == Result(Some(Clamped(v, longBits)), Cursor(c.token + 1, p + |Text(v)|))
  {
    hide Strto, Cast, Digits;
    assert tokens[c.token] == TokensOf(v, p)[0];
    NumberIsRead(mem, p, v.n, v.t, longBits);
    if Signed(v.t) {
      NearestKeepsType(v.t, v.n, longBits);
    }
    CastKeeps(v.t, Clamped(v, longBits).n);
  }

  /** Only 64-bit values do not fit a long, and the nearest long is of their type. */
  lemma NearestKeepsType(t: IntType, n: int, longBits: nat)
    requires longBits >= 32 && InRange(n, Bits(t), Signed(t)) && Signed(t)
    ensures InRange(Nearest(n, longBits), Bits(t), true)
    ensures t != I64 ==> Nearest(n, longBits) == n
  {
    WidthSuffices(t, longBits);
  }

  /** Wherever a value's text and tokens stand, decoding its shape there consumes exactly these and yields the value. */
  lemma {:induction false} ValueDecodes(mem: string, tokens: seq<Token>, longBits: nat, v: Value, c: Cursor, p: nat)
    requires longBits >= 32 && Typed(v)
    requires At(mem, p, Text(v)) && (v.Int? ==> !IsDigit(CharAt(mem, p + |Text(v)|)))
    requires At(tokens, c.token, TokensOf(v, p))
    ensures DecodeValue(mem, tokens, longBits, ShapeOf(v), c)
            == Result(Some(Clamped(v, longBits)), Cursor(c.token + |TokensOf(v, p)|, p + |Text(v)|))
    decreases v, 1, 0
  {
    if v.Int? {
      NumberDecodes(mem, tokens, longBits, v, c, p);
    } else {
      hide DecodeRest, Rest, RestTokens;
      assert tokens[c.token] == TokensOf(v, p)[0];
      AtSplit(tokens, c.token, TokensOf(v, p)[..1], RestTokens(v, 0, p + 1));
      assert TokensOf(v, p) == TokensOf(v, p)[..1] + RestTokens(v, 0, p + 1);
      AtSplit(mem, p, "[", Rest(v, 0) + "]");
      assert Text(v) == "[" + (Rest(v, 0) + "]");
      RestDecodes(mem, tokens, longBits, v, [], Cursor(c.token + 1, p + 1), p + 1);
    }
  }

  lemma {:induction false} RestDecodes(mem: string, tokens: seq<Token>, longBits: nat, v: Value, done: seq<Value>,
                                       c: Cursor, p: nat)
    requires longBits >= 32 && Typed(v) && v.List?
    requires |done| <= |v.items| && done == Clamped(v, longBits).items[..|done|]
    requires At(mem, p, Rest(v, |done|) + "]") && At(tokens, c.token, RestTokens(v, |done|, p))
    requires |done| == |v.items| ==> c.elem == p
    ensures DecodeRest(mem, tokens, longBits, ShapeOf(v), done, c)
            == Result(Some(Clamped(v, longBits)),
                      Cursor(c.token + |RestTokens(v, |done|, p)|, p + |Rest(v, |done|)| + 1))
    decreases v, 0, |v.items| - |done|
  {
    hide DecodeValue, DecodeRest, Text, TokensOf, InRange, Nearest;
    var i := |done|;
    if i == |v.items| {
      assert mem[p] == "]"[0];
      assert Clamped(v, longBits).items[..i] == Clamped(v, longBits).items;
      ListEnds(mem, tokens, longBits, ShapeOf(v), done, c);
    } else {
      hide At, Rest, RestTokens;
      var item := v.items[i];
      var p' := ItemStands(mem, tokens, v, i, c.token, p);
      assert item in v.items;
      ValueDecodes(mem, tokens, longBits, item, c, p);
      var c' := Cursor(c.token + |TokensOf(item, p)|, p + |Text(item)|);
      ListGoesOn(mem, tokens, longBits, ShapeOf(v), done, c);
      var done' := done + [Clamped(item, longBits)];
      assert done' == Clamped(v, longBits).items[..i + 1];
      RestDecodes(mem, tokens, longBits, v, done', c', p');
    }
  }

  /** The item's text and tokens, what ends it, and where the next one stands. */
  lemma ItemStands(mem: string, tokens: seq<Token>, v: Value, i: nat, at: nat, p: nat) returns (p': nat)
    requires v.List? && i < |v.items|
    requires At(mem, p, Rest(v, i) + "]") && At(tokens, at, RestTokens(v, i, p))
    ensures var item := v.items[i];
            var next := p + |Text(item)|;
            && At(mem, p, Text(item)) && At(tokens, at, TokensOf(item, p)) && !IsDigit(CharAt(mem, next))
            && At(mem, p', Rest(v, i + 1) + "]")
            && At(tokens, at + |TokensOf(item, p)|, RestTokens(v, i + 1, p'))
            && |RestTokens(v, i, p)| == |TokensOf(item, p)| + |RestTokens(v, i + 1, p')|
            && p' + |Rest(v, i + 1)| == p + |Rest(v, i)| && (i + 1 == |v.items| ==> p' == next)
  {
    hide TokensOf, Text;
    var next := p + |Text(v.items[i])|;
    ItemAt(mem, v, i, p);
    AtSplit(mem, p, Rest(v, i), "]");
    AtSplit(tokens, at, TokensOf(v.items[i], p), RestTokens(v, i + 1, next + 1));
    p' := if i + 1 == |v.items| then next else next + 1;
  }

  lemma ListGoesOn(mem: string, tokens: seq<Token>, longBits: nat, s: Shape, done: seq<Value>, c: Cursor)
    requires longBits > 0 && s.Items? && |done| < |s.elements|
    ensures var r := DecodeValue(mem, tokens, longBits, s.elements[|done|], c);
            r.value.Some? ==> DecodeRest(mem, tokens, longBits, s, done, c)
                              == DecodeRest(mem, tokens, longBits, s, done + [r.value.value], r.cursor)
  {
  }

  lemma ListEnds(mem: string, tokens: seq<Token>, longBits: nat, s: Shape, done: seq<Value>, c: Cursor)
    requires longBits > 0 && s.Items? && |done| == |s.elements| && CharAt(mem, c.elem) == ']'
    ensures DecodeRest(mem, tokens, longBits, s, done, c) == Result(Some(List(done)), c.(elem := c.elem + 1))
  {
  }

  /** A value's text is decoded into what the value's shape can hold of it: the value itself, 64-bit signed integers
      clamped to a long. `mem` may go on behind the text. */
  lemma TextDecodes(mem: string, capacity: nat, longBits: nat, v: Value)
    requires longBits >= 32 && Typed(v) && |TokensOf(v, 0)| <= capacity
    requires At(mem, 0, Text(v)) && (v.Int? ==> !IsDigit(CharAt(mem, |Text(v)|)))
    ensures DecodeValue(mem, TokensSeen(Text(v), capacity).tokens, longBits, ShapeOf(v), Cursor(0, 0))
            == Result(Some(Clamped(v, longBits)), Cursor(|TokensOf(v, 0)|, |Text(v)|))
  {
    TextIsTokenised(v, capacity);
    ValueDecodes(mem, TokensOf(v, 0), longBits, v, Cursor(0, 0), 0);
  }

  // ----- a number that fills the buffer

  /** The number without its last digit. */
  function Truncated(n: int): int { if n < 0 then -(-n / 10) else n / 10 }

  lemma CutOffIsTruncated(n: int)
    requires n >= 10 || n <= -10
    ensures CutOff(Number(n)) == Number(Truncated(n)) + ['\0']
  {
    var m := if n < 0 then -n else n;
    assert Decimal(m)[..|Decimal(m)| - 1] == Decimal(m / 10);
    if n < 0 {
      assert Number(n)[..|Number(n)| - 1] == "-" + Decimal(m / 10);
    }
  }

  /** The text of a number is followed by NUL, where tokenising ends. */
  lemma NumberIsTokenised(v: Value, capacity: nat)
    requires v.Int? && capacity > 0
    ensures TokensSeen(Text(v) + ['\0'], capacity).tokens == TokensOf(v, 0)
  {
    BufferIsTokenised(v, ['\0'], capacity);
  }

  lemma TruncatedDecodes(v: Value, capacity: nat, longBits: nat)
    requires v.Int? && (v.n >= 10 || v.n <= -10) && Typed(v) && longBits >= 32 && capacity > 0
    ensures var mem := CutOff(Text(v));
            DecodeValue(mem, TokensSeen(mem, capacity).tokens, longBits, ShapeOf(v), Cursor(0, 0)).value
            == Some(Clamped(Int(v.t, Truncated(v.n)), longBits))
  {
    hide Pow2, DecodeValue, TokensOf, CutOff, Number, Parse;
    var shorter := Int(v.t, Truncated(v.n));
    CutOffIsTruncated(v.n);
    NumberIsTokenised(shorter, capacity);
    ValueDecodes(CutOff(Text(v)), TokensOf(shorter, 0), longBits, shorter, Cursor(0, 0), 0);
  }

  lemma MinusIsTokenised(capacity: nat)
    requires capacity > 0
    ensures TokensSeen(['-', '\0'], capacity).tokens == [Token(Primitive, 0, 1, 0)]
  {
    hide LastOpen;
    var mem := ['-', '\0'];
    assert ScanPrimitive(mem, 0) == Found(1);
    assert Step(mem, capacity, Init) == Going(Parser(1, [Token(Primitive, 0, 1, 0)], -1));
  }

  lemma ShortNumberIsLost(v: Value, capacity: nat, longBits: nat)
    requires v.Int? && -10 < v.n < 10 && longBits >= 32 && capacity > 0
    ensures var mem := CutOff(Text(v));
            DecodeValue(mem, TokensSeen(mem, capacity).tokens, longBits, ShapeOf(v), Cursor(0, 0)).value
            == if v.n < 0 then Some(Int(v.t, 0)) else None
  {
    hide Step, LastOpen;
    var mem := CutOff(Text(v));
    if v.n < 0 {
      hide Parse, TokensSeen;
      assert mem == ['-', '\0'];
      MinusIsTokenised(capacity);
      assert Strto(mem, 0, v.t, longBits) == Scanned(0, 0);
      CastKeeps(v.t, 0);
    } else {
      assert mem == ['\0'];
    }
  }

  lemma CutOffIsNotReadBack(v: Value, capacity: nat, longBits: nat)
    requires v.Int? && Typed(v) && longBits >= 32 && capacity > 0
    ensures var mem := CutOff(Text(v));
            DecodeValue(mem, TokensSeen(mem, capacity).tokens, longBits, ShapeOf(v), Cursor(0, 0)).value != Some(v)
  {
    hide Pow2, DecodeValue, CutOff, TokensSeen;
    if -10 < v.n < 10 {
      ShortNumberIsLost(v, capacity, longBits);
    } else {
      TruncatedDecodes(v, capacity, longBits);
    }
  }

  /** Text round trip. Encoding succeeds if the text fits, and then decoding into variables of the same types gives the
      value back, with two exceptions: a number on its own whose text fills the buffer to the last byte, and a 64-bit
      signed integer that does not fit a long. */
  method RoundTrip(v: Value, size: nat, capacity: nat, longBits: nat) returns (encoded: bool, decoded: Option<Value>)
    requires longBits >= 32 && Typed(v) && |TokensOf(v, 0)| <= capacity
    ensures encoded <==> |Text(v)| <= size
    ensures encoded && (v.List? || |Text(v)| < size) ==> decoded == Some(Clamped(v, longBits))
    ensures encoded ==> (decoded == Some(v) <==> (v.List? || |Text(v)| < size) && FitsLong(v, longBits))
  {
    var buffer := new char[size](_ => ' ');
    var encoder := new Encoder(buffer);
    encoded := encoder.Encode(v);
    if !encoded {
      return false, None;
    }
    var mem := buffer[..];
    ghost var length := encoder.position;
    assert mem[..length] == encoder.Written();
    if v.List? || length < size {
      TextDecodes(mem, capacity, longBits, v);
      ReadBackExactlyIfLongsFit(v, longBits);
    } else {
      assert mem[..length] == mem == CutOff(Text(v));
      CutOffIsNotReadBack(v, capacity, longBits);
    }
    var decoder := new Decoder(mem, encoder.position, capacity, longBits);
    decoded := decoder.Decode(ShapeOf(v));
  }
}
