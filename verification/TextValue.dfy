/** Nested lists of integers and the text that stands for them. */
module TextValue {

  datatype IntType = U8 | U16 | U32 | U64 | I8 | I16 | I32 | I64

  function Bits(t: IntType): nat {
    match t
    case U8 => 8 case I8 => 8
    case U16 => 16 case I16 => 16
    case U32 => 32 case I32 => 32
    case U64 => 64 case I64 => 64
  }

  predicate Signed(t: IntType) { t == I8 || t == I16 || t == I32 || t == I64 }

  function Pow2(n: nat): (r: int)
    ensures r > 0
  {
    if n == 0 then 1 else 2 * Pow2(n - 1)
  }

  /** The values of an integer of `bits` bits. */
  predicate InRange(n: int, bits: nat, signed: bool)
    requires bits > 0
  {
    if signed then -Pow2(bits - 1) <= n < Pow2(bits - 1) else 0 <= n < Pow2(bits)
  }

  datatype Value = Int(t: IntType, n: int) | List(items: seq<Value>)

  /** Every integer is in the range of its type. */
  predicate Typed(v: Value) {
    match v
    case Int(t, n) => InRange(n, Bits(t), Signed(t))
    case List(items) => forall item <- items :: Typed(item)
  }

  /** What the decoder is told to decode into: integer variables and arrays of them. */
  datatype Shape = Leaf(t: IntType) | Items(elements: seq<Shape>)

  function ShapeOf(v: Value): Shape {
    match v
    case Int(t, _) => Leaf(t)
    case List(items) => Items(seq(|items|, i requires 0 <= i < |items| => ShapeOf(items[i])))
  }

  // ----- text

  predicate IsDigit(c: char) { '0' <= c <= '9' }

  function Digit(d: nat): (c: char)
    requires d < 10
    ensures IsDigit(c)
  {
    '0' + d as char
  }

  function Decimal(n: nat): (r: string)
    ensures |r| > 0 && forall c <- r :: IsDigit(c)
  {
    if n < 10 then [Digit(n)] else Decimal(n / 10) + [Digit(n % 10)]
  }

  /** What printf makes of an integer. */
  function Number(n: int): (r: string)
    ensures |r| > 0 && IsDigit(r[|r| - 1])
    ensures IsDigit(r[0]) || r[0] == '-'
    ensures forall i | 0 < i < |r| :: IsDigit(r[i])
  {
    if n < 0 then "-" + Decimal(-n) else Decimal(n)
  }

  /** JSON text without white space. */
  function Text(v: Value): (r: string)
    ensures |r| > 0
    ensures v.List? ==> |r| >= 2
    decreases v, 1, 0
  {
    match v
    case Int(_, n) => Number(n)
    case List(items) => "[" + Rest(v, 0) + "]"
  }

  /** The items from `i` on, separated by commas. */
  function Rest(v: Value, i: nat): string
    requires v.List? && i <= |v.items|
    decreases v, 0, |v.items| - i
  {
    if i == |v.items| then ""
    else if i + 1 == |v.items| then Text(v.items[i])
    else Text(v.items[i]) + "," + Rest(v, i + 1)
  }

  /** `t` stands at position `p`. */
  predicate At<T(==)>(s: seq<T>, p: nat, t: seq<T>) {
    p + |t| <= |s| && s[p..p + |t|] == t
  }

  lemma AtSplit<T>(s: seq<T>, p: nat, a: seq<T>, b: seq<T>)
    requires At(s, p, a + b)
    ensures At(s, p, a) && At(s, p + |a|, b)
  {
    assert (a + b)[..|a|] == a && (a + b)[|a|..] == b;
    assert s[p..p + |a|] == s[p..p + |a + b|][..|a|];
    assert s[p + |a|..p + |a| + |b|] == s[p..p + |a + b|][|a|..];
  }
}
