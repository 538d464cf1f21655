/** Decoding a text into variables of any shape succeeds exactly if the shape is the value's. The decoder only looks for
    a closing bracket where its character cursor happens to be, and may jump over others, but then it will be short of
    one in the end. */
module TextShape {
  import opened Jsmn
  import opened TextDecoder
  import opened TextRoundTrip
  import opened TextTokens
  import opened TextValue
  import opened Wrappers

  /** The arrays have the lengths of the lists; the integer types do not matter. */
  predicate Matches(s: Shape, v: Value) {
    match v
    case Int(_, _) => s.Leaf?
    case List(items) =>
      s.Items? && |s.elements| == |items| && forall i | 0 <= i < |items| :: Matches(s.elements[i], items[i])
  }

  // ----- counting brackets

  /** The closing brackets in js[lo..hi]. */
  function Closers(js: string, lo: int, hi: int): nat
    requires 0 <= lo && hi <= |js|
    decreases hi - lo
  {
    if lo >= hi then 0 else (if js[lo] == ']' then 1 else 0) + Closers(js, lo + 1, hi)
  }

  lemma {:induction false} ClosersSplit(js: string, lo: nat, mid: nat, hi: nat)
    requires lo <= mid <= hi <= |js|
    ensures Closers(js, lo, hi) == Closers(js, lo, mid) + Closers(js, mid, hi)
    decreases mid - lo
  {
    if lo < mid {
      ClosersSplit(js, lo + 1, mid, hi);
    }
  }

  function Arrays(ts: seq<Token>): nat {
    if ts == [] then 0 else (if ts[0].kind == Array then 1 else 0) + Arrays(ts[1..])
  }

  lemma {:induction false} ArraysSplit(a: seq<Token>, b: seq<Token>)
    ensures Arrays(a + b) == Arrays(a) + Arrays(b)
  {
    if a == [] {
      assert a + b == b;
    } else {
      ArraysSplit(a[1..], b);
      assert (a + b)[1..] == a[1..] + b;
    }
  }

  // ----- how the tokens lie in the text

  /** A primitive ends where its digits end. */
  predicate Ended(js: string, t: Token) {
    t.kind == Primitive ==> t.start < t.end && !IsDigit(CharAt(js, t.end))
  }

  /** The tokens are in order in js[lo..hi], and none overlaps a number. */
  predicate Ordered(js: string, ts: seq<Token>, lo: nat, hi: nat)
    requires hi <= |js|
  {
    && (forall k | 0 <= k < |ts| :: lo <= ts[k].start < hi && js[ts[k].start] != ']' && Ended(js, ts[k]))
    && (forall k | 0 <= k < |ts| && ts[k].kind == Primitive :: ts[k].end <= hi)
    && (forall j, k | 0 <= j < k < |ts| ::
          ts[j].start < ts[k].start && (ts[j].kind == Primitive ==> ts[j].end <= ts[k].start))
  }

  /** From each of them on there are as many closing brackets as arrays. */
  predicate Enough(js: string, ts: seq<Token>, hi: nat)
    requires hi <= |js|
  {
    forall k | 0 <= k < |ts| :: 0 <= ts[k].start <= hi && Closers(js, ts[k].start, hi) >= Arrays(ts[k..])
  }

  predicate Laid(js: string, ts: seq<Token>, lo: nat, hi: nat)
    requires hi <= |js|
  {
    Ordered(js, ts, lo, hi) && Enough(js, ts, hi)
  }

  lemma OrderedTogether(js: string, a: seq<Token>, b: seq<Token>, lo: nat, mid: nat, hi: nat)
    requires lo <= mid <= hi <= |js| && Ordered(js, a, lo, mid) && Ordered(js, b, mid, hi)
    ensures Ordered(js, a + b, lo, hi)
  {
  }

  lemma EnoughTogether(js: string, a: seq<Token>, b: seq<Token>, mid: nat, hi: nat)
    requires mid <= hi <= |js| && Enough(js, a, mid) && Enough(js, b, hi) && Closers(js, mid, hi) >= Arrays(b)
    ensures Enough(js, a + b, hi)
  {
    hide Closers, Arrays;
    var ts := a + b;
    forall k | 0 <= k < |ts| ensures 0 <= ts[k].start <= hi && Closers(js, ts[k].start, hi) >= Arrays(ts[k..]) {
      if k < |a| {
        ClosersSplit(js, a[k].start, mid, hi);
        ArraysSplit(a[k..], b);
        assert ts[k..] == a[k..] + b;
      } else {
        assert ts[k..] == b[k - |a|..];
      }
    }
  }

  /** Tokens, a separator, and more tokens. */
  lemma LaidTogether(js: string, a: seq<Token>, b: seq<Token>, lo: nat, mid: nat, hi: nat)
    requires lo <= mid < hi <= |js| && js[mid] != ']' && Laid(js, a, lo, mid) && Laid(js, b, mid + 1, hi)
    requires Closers(js, lo, mid) == Arrays(a) && Closers(js, mid + 1, hi) == Arrays(b)
    ensures Laid(js, a + b, lo, hi) && Closers(js, lo, hi) == Arrays(a + b)
  {
    assert Closers(js, mid, hi) == Closers(js, mid + 1, hi);
    hide Closers, Arrays;
    ClosersSplit(js, lo, mid, hi);
    ArraysSplit(a, b);
    assert Ordered(js, b, mid, hi);
    hide Ordered, Enough;
    OrderedTogether(js, a, b, lo, mid, hi);
    EnoughTogether(js, a, b, mid, hi);
  }

  /** The tokens of a value lie in its text, which has one closing bracket for each array. */
  lemma {:induction false} ValueIsLaid(js: string, v: Value, p: nat)
    requires At(js, p, Text(v)) && (v.Int? ==> !IsDigit(CharAt(js, p + |Text(v)|)))
    ensures Laid(js, TokensOf(v, p), p, p + |Text(v)|)
    ensures Closers(js, p, p + |Text(v)|) == Arrays(TokensOf(v, p))
    decreases v, 1, 0
  {
    hide Laid, Closers, Arrays, Rest, RestTokens;
    if v.Int? {
      NumberIsLaid(js, v, p);
    } else {
      var end := p + |Text(v)|;
      var rest := RestTokens(v, 0, p + 1);
      assert Text(v) == "[" + (Rest(v, 0) + "]");
      AtSplit(js, p, "[", Rest(v, 0) + "]");
      AtSplit(js, p + 1, Rest(v, 0), "]");
      assert js[p] == "["[0] && js[end - 1] == "]"[0];
      RestIsLaid(js, v, 0, p + 1);
      ListIsLaid(js, TokensOf(v, p)[0], rest, p, end);
      assert TokensOf(v, p) == [TokensOf(v, p)[0]] + rest;
    }
  }

  lemma NumberIsLaid(js: string, v: Value, p: nat)
    requires v.Int? && At(js, p, Text(v)) && !IsDigit(CharAt(js, p + |Text(v)|))
    ensures Laid(js, TokensOf(v, p), p, p + |Text(v)|)
    ensures Closers(js, p, p + |Text(v)|) == Arrays(TokensOf(v, p)) == 0
  {
    var text := Text(v);
    forall k | p <= k < p + |text| ensures js[k] != ']' {
      assert js[k] == text[k - p];
    }
    NoClosers(js, p, p + |text|);
    assert TokensOf(v, p)[0..] == TokensOf(v, p);
  }

  lemma {:induction false} NoClosers(js: string, lo: nat, hi: nat)
    requires lo <= hi <= |js| && forall k | lo <= k < hi :: js[k] != ']'
    ensures Closers(js, lo, hi) == 0
    decreases hi - lo
  {
    if lo < hi {
      NoClosers(js, lo + 1, hi);
    }
  }

  lemma ListIsLaid(js: string, t: Token, rest: seq<Token>, p: nat, end: nat)
    requires p + 1 < end <= |js| && js[p] == '[' && js[end - 1] == ']' && t.kind == Array && t.start == p
    requires Laid(js, rest, p + 1, end - 1) && Closers(js, p + 1, end - 1) == Arrays(rest)
    ensures Laid(js, [t] + rest, p, end) && Closers(js, p, end) == Arrays([t] + rest)
  {
    OneBracket(js, p, end);
    assert Closers(js, end - 1, end) == 1;
    assert ([t] + rest)[1..] == rest;
    OrderedTogether(js, [t], rest, p, p + 1, end);
    EnoughInside(js, t, rest, p, end);
  }

  lemma EnoughInside(js: string, t: Token, rest: seq<Token>, p: nat, end: nat)
    requires p + 1 < end <= |js| && t.start == p
    requires Enough(js, rest, end - 1) && Closers(js, p, end) >= Arrays([t] + rest)
    ensures Enough(js, [t] + rest, end)
  {
    hide Closers, Arrays;
    var ts := [t] + rest;
    forall k | 0 <= k < |ts| ensures 0 <= ts[k].start <= end && Closers(js, ts[k].start, end) >= Arrays(ts[k..]) {
      if k == 0 {
        assert ts[0..] == ts;
      } else {
        assert ts[k..] == rest[k - 1..] && ts[k] == rest[k - 1];
        ClosersSplit(js, ts[k].start, end - 1, end);
      }
    }
  }

  lemma OneBracket(js: string, p: nat, end: nat)
    requires p + 1 < end <= |js| && js[p] == '[' && js[end - 1] == ']'
    ensures Closers(js, p, end) == Closers(js, p + 1, end - 1) + 1
  {
    ClosersSplit(js, p + 1, end - 1, end);
  }

  lemma {:induction false} RestIsLaid(js: string, v: Value, i: nat, p: nat)
    requires v.List? && i <= |v.items| && At(js, p, Rest(v, i) + "]")
    ensures Laid(js, RestTokens(v, i, p), p, p + |Rest(v, i)|)
    ensures Closers(js, p, p + |Rest(v, i)|) == Arrays(RestTokens(v, i, p))
    decreases v, 0, |v.items| - i
  {
    hide Text, TokensOf, Laid, Closers, Arrays;
    if i == |v.items| {
      NothingIsLaid(js, p);
    } else {
      var item := v.items[i];
      var next := p + |Text(item)|;
      ItemAt(js, v, i, p);
      ValueIsLaid(js, item, p);
      var here := TokensOf(item, p);
      if i + 1 == |v.items| {
        assert RestTokens(v, i, p) == here + [] == here;
      } else {
        RestIsLaid(js, v, i + 1, next + 1);
        LaidTogether(js, here, RestTokens(v, i + 1, next + 1), p, next, p + |Rest(v, i)|);
      }
    }
  }

  lemma NothingIsLaid(js: string, p: nat)
    requires p <= |js|
    ensures Laid(js, [], p, p) && Closers(js, p, p) == Arrays([])
  {
  }

  // ----- no closing bracket is skipped twice

  /** The tokens lie in js[..end], and no closing bracket follows. */
  predicate Before(js: string, ts: seq<Token>, end: nat) {
    end <= |js| && Laid(js, ts, 0, end) && CharAt(js, end) != ']'
  }

  /** The cursor is within js[..end] and not behind its next token. */
  predicate Fine(js: string, ts: seq<Token>, end: nat, c: Cursor) {
    c.token <= |ts| && 0 <= c.elem <= end <= |js| && (c.token < |ts| ==> c.elem <= ts[c.token].start)
  }

  /** The closing brackets in front of the cursor beyond those of the arrays still to come. */
  function Slack(js: string, ts: seq<Token>, end: nat, c: Cursor): int
    requires Fine(js, ts, end, c)
  {
    Closers(js, c.elem, end) - Arrays(ts[c.token..])
  }

  lemma SlackIsNotNegative(js: string, ts: seq<Token>, end: nat, c: Cursor)
    requires Before(js, ts, end) && Fine(js, ts, end, c)
    ensures Slack(js, ts, end, c) >= 0
  {
    if c.token < |ts| {
      ClosersSplit(js, c.elem, ts[c.token].start, end);
    }
  }

  /** Jumping to the next token. */
  function Jumped(ts: seq<Token>, c: Cursor): Cursor
    requires c.token < |ts|
  {
    c.(elem := ts[c.token].start)
  }

  lemma JumpingSkips(js: string, ts: seq<Token>, end: nat, c: Cursor)
    requires Before(js, ts, end) && Fine(js, ts, end, c) && c.token < |ts|
    ensures Fine(js, ts, end, Jumped(ts, c)) && Slack(js, ts, end, Jumped(ts, c)) <= Slack(js, ts, end, c)
    ensures CharAt(js, c.elem) == ']' ==> Slack(js, ts, end, Jumped(ts, c)) < Slack(js, ts, end, c)
  {
    var start := ts[c.token].start;
    ClosersSplit(js, c.elem, start, end);
  }

  lemma {:induction false} DigitsEndBy(js: string, i: nat, acc: nat, end: nat)
    requires i <= end && !IsDigit(CharAt(js, end))
    ensures Digits(js, i, acc).end <= end
    decreases end - i
  {
    if IsDigit(CharAt(js, i)) {
      DigitsEndBy(js, i + 1, 10 * acc + (js[i] - '0') as int, end);
    }
  }

  lemma NumberEndsBy(js: string, i: nat, t: IntType, longBits: nat, end: nat)
    requires longBits > 0 && i < end && !IsDigit(CharAt(js, end))
    ensures i <= Strto(js, i, t, longBits).end <= end
  {
    hide Pow2, Clamp, Digits;
    DigitsEndBy(js, i, 0, end);
    DigitsEndBy(js, i + 1, 0, end);
  }

  lemma LeafKeepsSlack(js: string, ts: seq<Token>, end: nat, longBits: nat, s: Shape, c: Cursor)
    requires longBits > 0 && s.Leaf? && Before(js, ts, end) && Fine(js, ts, end, c)
    requires DecodeValue(js, ts, longBits, s, c).value.Some?
    ensures var r := DecodeValue(js, ts, longBits, s, c);
            && c.token < |ts| && Fine(js, ts, end, r.cursor)
            && Slack(js, ts, end, r.cursor) <= Slack(js, ts, end, Jumped(ts, c))
  {
    hide Strto, Closers, Arrays, Cast, Enough;
    var t := ts[c.token];
    var r := DecodeValue(js, ts, longBits, s, c);
    NumberEndsBy(js, t.start, s.t, longBits, t.end);
    ClosersSplit(js, t.start, r.cursor.elem, end);
    ArraysFrom(ts, c.token);
  }

  lemma ArraysFrom(ts: seq<Token>, k: nat)
    requires k < |ts|
    ensures Arrays(ts[k..]) == (if ts[k].kind == Array then 1 else 0) + Arrays(ts[k + 1..])
  {
    assert ts[k..][1..] == ts[k + 1..];
  }

  lemma OpeningAddsSlack(js: string, ts: seq<Token>, end: nat, c: Cursor)
    requires Before(js, ts, end) && Expect(ts, Array, c).Some? && Fine(js, ts, end, c)
    ensures var c' := Expect(ts, Array, c).value;
            Fine(js, ts, end, c') && Slack(js, ts, end, c') == Slack(js, ts, end, Jumped(ts, c)) + 1
  {
    ArraysFrom(ts, c.token);
  }

  lemma ClosingTakesSlack(js: string, ts: seq<Token>, end: nat, c: Cursor)
    requires Before(js, ts, end) && Fine(js, ts, end, c) && CharAt(js, c.elem) == ']'
    ensures var c' := c.(elem := c.elem + 1);
            Fine(js, ts, end, c') && Slack(js, ts, end, c') == Slack(js, ts, end, c) - 1
  {
  }

  /** Decoding a value never adds to the slack, and jumping over a closing bracket reduces it. */
  lemma {:induction false} ValueKeepsSlack(js: string, ts: seq<Token>, end: nat, longBits: nat, s: Shape, c: Cursor)
    requires longBits > 0 && Before(js, ts, end) && Fine(js, ts, end, c)
    requires DecodeValue(js, ts, longBits, s, c).value.Some?
    ensures var r := DecodeValue(js, ts, longBits, s, c);
            && c.token < |ts| && Fine(js, ts, end, r.cursor)
            && Slack(js, ts, end, r.cursor) <= Slack(js, ts, end, Jumped(ts, c))
    decreases s, 1, 0
  {
    if s.Leaf? {
      LeafKeepsSlack(js, ts, end, longBits, s, c);
    } else {
      hide Laid, Before, Slack, DecodeRest;
      OpeningAddsSlack(js, ts, end, c);
      RestTakesSlack(js, ts, end, longBits, s, [], Expect(ts, Array, c).value);
    }
  }

  /** The closing bracket that is found uses one up. */
  lemma {:induction false} RestTakesSlack(js: string, ts: seq<Token>, end: nat, longBits: nat, s: Shape,
                                          done: seq<Value>, c: Cursor)
    requires longBits > 0 && Before(js, ts, end) && Fine(js, ts, end, c)
    requires s.Items? && |done| <= |s.elements| && DecodeRest(js, ts, longBits, s, done, c).value.Some?
    ensures var r := DecodeRest(js, ts, longBits, s, done, c);
            Fine(js, ts, end, r.cursor) && Slack(js, ts, end, r.cursor) <= Slack(js, ts, end, c) - 1
    decreases s, 0, |s.elements| - |done|
  {
    hide Laid, Before, Slack, DecodeValue, Fine;
    if |done| == |s.elements| {
      ClosingTakesSlack(js, ts, end, c);
    } else {
      var r := DecodeValue(js, ts, longBits, s.elements[|done|], c);
      ValueKeepsSlack(js, ts, end, longBits, s.elements[|done|], c);
      JumpingSkips(js, ts, end, c);
      RestTakesSlack(js, ts, end, longBits, s, done + [r.value.value], r.cursor);
    }
  }

  // ----- where nothing is skipped, the shapes agree

  /** A number is read to its end whatever its type. */
  lemma NumberIsReadToItsEnd(js: string, p: nat, n: int, t: IntType, longBits: nat)
    requires longBits > 0 && At(js, p, Number(n)) && !IsDigit(CharAt(js, p + |Number(n)|))
    ensures Strto(js, p, t, longBits).end == p + |Number(n)|
  {
    SignAndDigits(js, p, n);
    hide Digits, Pow2, Decimal, Clamp, Number;
  }

  /** Behind a value. */
  function Behind(v: Value, c: Cursor, p: nat): Cursor { Cursor(c.token + |TokensOf(v, p)|, p + |Text(v)|) }

  lemma LeafDecodesExactly(js: string, ts: seq<Token>, longBits: nat, s: Shape, v: Value, c: Cursor, p: nat)
    requires longBits > 0 && (s.Leaf? || v.Int?)
    requires At(js, p, Text(v)) && (v.Int? ==> !IsDigit(CharAt(js, p + |Text(v)|))) && At(ts, c.token, TokensOf(v, p))
    ensures var r := DecodeValue(js, ts, longBits, s, c);
            r.value.Some? <==> Matches(s, v)
    ensures var r := DecodeValue(js, ts, longBits, s, c);
            r.value.Some? ==> r.cursor == Behind(v, c, p)
  {
    hide Strto, Cast, Number;
    assert ts[c.token] == TokensOf(v, p)[0];
    if s.Leaf? && v.Int? {
      NumberIsReadToItsEnd(js, p, v.n, s.t, longBits);
    }
  }

  /** Where a value's text and tokens stand, a shape that decodes without skipping a closing bracket is the value's. */
  lemma {:induction false} UnskippedValueMatches(js: string, ts: seq<Token>, end: nat, longBits: nat, s: Shape,
                                                 v: Value, c: Cursor, p: nat)
    requires longBits > 0 && Before(js, ts, end) && Fine(js, ts, end, c)
    requires At(js, p, Text(v)) && (v.Int? ==> !IsDigit(CharAt(js, p + |Text(v)|))) && At(ts, c.token, TokensOf(v, p))
    requires var r := DecodeValue(js, ts, longBits, s, c);
             r.value.Some? && (Fine(js, ts, end, r.cursor) ==> Slack(js, ts, end, r.cursor) >= Slack(js, ts, end, c))
    ensures Matches(s, v) && DecodeValue(js, ts, longBits, s, c).cursor == Behind(v, c, p)
    decreases s, 1, 0
  {
    if s.Leaf? || v.Int? {
      LeafDecodesExactly(js, ts, longBits, s, v, c, p);
    } else {
      hide Laid, Before, Slack, DecodeRest, Rest, RestTokens;
      InsideList(js, ts, v, c, p);
      OpeningAddsSlack(js, ts, end, c);
      JumpingSkips(js, ts, end, c);
      ValueKeepsSlack(js, ts, end, longBits, s, c);
      UnskippedRestMatches(js, ts, end, longBits, s, v, [], Expect(ts, Array, c).value, p + 1);
    }
  }

  lemma InsideList(js: string, ts: seq<Token>, v: Value, c: Cursor, p: nat)
    requires v.List? && At(js, p, Text(v)) && At(ts, c.token, TokensOf(v, p))
    ensures Expect(ts, Array, c) == Some(Cursor(c.token + 1, p + 1))
    ensures At(js, p + 1, Rest(v, 0) + "]") && At(ts, c.token + 1, RestTokens(v, 0, p + 1))
    ensures v.items != [] ==> CharAt(js, p + 1) != ']'
  {
    assert ts[c.token] == TokensOf(v, p)[0];
    assert Text(v) == "[" + (Rest(v, 0) + "]");
    AtSplit(js, p, "[", Rest(v, 0) + "]");
    AtSplit(ts, c.token, TokensOf(v, p)[..1], RestTokens(v, 0, p + 1));
    assert TokensOf(v, p) == TokensOf(v, p)[..1] + RestTokens(v, 0, p + 1);
    if v.items != [] {
      ItemAt(js, v, 0, p + 1);
      assert js[p + 1] == Text(v.items[0])[0];
    }
  }

  lemma {:induction false} UnskippedRestMatches(js: string, ts: seq<Token>, end: nat, longBits: nat, s: Shape, v: Value,
                                                done: seq<Value>, c: Cursor, p: nat)
    requires longBits > 0 && Before(js, ts, end) && Fine(js, ts, end, c)
    requires v.List? && s.Items? && |done| <= |v.items| && |done| <= |s.elements|
    requires At(js, p, Rest(v, |done|) + "]") && At(ts, c.token, RestTokens(v, |done|, p))
    requires if |done| == |v.items| then c.elem == p else CharAt(js, c.elem) != ']'
    requires var r := DecodeRest(js, ts, longBits, s, done, c);
             && r.value.Some?
             && (Fine(js, ts, end, r.cursor) ==> Slack(js, ts, end, r.cursor) >= Slack(js, ts, end, c) - 1)
    ensures |s.elements| == |v.items| && forall k | |done| <= k < |v.items| :: Matches(s.elements[k], v.items[k])
    ensures DecodeRest(js, ts, longBits, s, done, c).cursor
            == Cursor(c.token + |RestTokens(v, |done|, p)|, p + |Rest(v, |done|)| + 1)
    decreases s, 0, |s.elements| - |done|
  {
    hide Laid, Before, Slack, DecodeValue, Fine, Text, TokensOf, Matches;
    var i := |done|;
    if i == |v.items| {
      assert js[p..p + 1] == "]";
      assert js[p] == "]"[0];
    }
    if i < |s.elements| {
      var r := DecodeValue(js, ts, longBits, s.elements[i], c);
      var done' := done + [r.value.value];
      ValueKeepsSlack(js, ts, end, longBits, s.elements[i], c);
      JumpingSkips(js, ts, end, c);
      RestTakesSlack(js, ts, end, longBits, s, done', r.cursor);
      assert i < |v.items|;
      var item := v.items[i];
      var next := p + |Text(item)|;
      ItemAt(js, v, i, p);
      AtSplit(ts, c.token, TokensOf(item, p), RestTokens(v, i + 1, next + 1));
      UnskippedValueMatches(js, ts, end, longBits, s.elements[i], item, c, p);
      UnskippedRestMatches(js, ts, end, longBits, s, v, done', r.cursor, if i + 1 == |v.items| then next else next + 1);
    }
  }

  // ----- a matching shape decodes

  lemma {:induction false} MatchingValueDecodes(js: string, ts: seq<Token>, longBits: nat, s: Shape, v: Value,
                                                c: Cursor, p: nat)
    requires longBits > 0 && Matches(s, v)
    requires At(js, p, Text(v)) && (v.Int? ==> !IsDigit(CharAt(js, p + |Text(v)|))) && At(ts, c.token, TokensOf(v, p))
    ensures var r := DecodeValue(js, ts, longBits, s, c);
            r.value.Some? && r.cursor == Behind(v, c, p)
    decreases s, 1, 0
  {
    if s.Leaf? {
      LeafDecodesExactly(js, ts, longBits, s, v, c, p);
    } else {
      hide DecodeRest, Rest, RestTokens;
      InsideList(js, ts, v, c, p);
      MatchingRestDecodes(js, ts, longBits, s, v, [], Cursor(c.token + 1, p + 1), p + 1);
    }
  }

  lemma {:induction false} MatchingRestDecodes(js: string, ts: seq<Token>, longBits: nat, s: Shape, v: Value,
                                               done: seq<Value>, c: Cursor, p: nat)
    requires longBits > 0 && v.List? && Matches(s, v) && |done| <= |v.items|
    requires At(js, p, Rest(v, |done|) + "]") && At(ts, c.token, RestTokens(v, |done|, p))
    requires |done| == |v.items| ==> c.elem == p
    ensures var r := DecodeRest(js, ts, longBits, s, done, c);
            && r.value.Some?
            && r.cursor == Cursor(c.token + |RestTokens(v, |done|, p)|, p + |Rest(v, |done|)| + 1)
    decreases s, 0, |s.elements| - |done|
  {
    hide DecodeValue, Text, TokensOf;
    var i := |done|;
    if i == |v.items| {
      assert js[p..p + 1] == "]";
      assert js[p] == "]"[0];
    } else {
      var item := v.items[i];
      var next := p + |Text(item)|;
      ItemAt(js, v, i, p);
      AtSplit(ts, c.token, TokensOf(item, p), RestTokens(v, i + 1, next + 1));
      MatchingValueDecodes(js, ts, longBits, s.elements[i], item, c, p);
      var r := DecodeValue(js, ts, longBits, s.elements[i], c);
      MatchingRestDecodes(js, ts, longBits, s, v, done + [r.value.value], r.cursor,
                          if i + 1 == |v.items| then next else next + 1);
    }
  }

  // ----- the whole text

  /** Decoding the text of v into variables of shape s succeeds, with the memory `behind` following the text. */
  predicate Decodes(v: Value, behind: string, s: Shape, capacity: nat, longBits: nat)
    requires longBits > 0
  {
    DecodeValue(Text(v) + behind, TokensSeen(Text(v), capacity).tokens, longBits, s, Cursor(0, 0)).value.Some?
  }

  predicate BracketFollows(behind: string) { behind != "" && behind[0] == ']' }

  lemma NumberDecodesExactly(v: Value, behind: string, s: Shape, capacity: nat, longBits: nat)
    requires longBits > 0 && |TokensOf(v, 0)| <= capacity && v.Int?
    ensures Decodes(v, behind, s, capacity, longBits) <==> Matches(s, v)
  {
    hide Strto, Cast, Parse;
    TextIsTokenised(v, capacity);
  }

  lemma ListDecodesExactly(v: Value, behind: string, s: Shape, capacity: nat, longBits: nat)
    requires longBits > 0 && |TokensOf(v, 0)| <= capacity && v.List? && !BracketFollows(behind)
    ensures Decodes(v, behind, s, capacity, longBits) <==> Matches(s, v)
  {
    hide DecodeValue, Matches, Text, RestTokens, Laid, Closers;
    var js, ts, end, c := Text(v) + behind, TokensOf(v, 0), |Text(v)|, Cursor(0, 0);
    TextIsTokenised(v, capacity);
    var r := DecodeValue(js, ts, longBits, s, c);
    if Matches(s, v) {
      MatchingValueDecodes(js, ts, longBits, s, v, c, 0);
    } else if r.value.Some? {
      ValueIsLaid(js, v, 0);
      assert ts[0..] == ts;
      ValueKeepsSlack(js, ts, end, longBits, s, c);
      JumpingSkips(js, ts, end, c);
      SlackIsNotNegative(js, ts, end, r.cursor);
      UnskippedValueMatches(js, ts, end, longBits, s, v, c, 0);
    }
  }

  lemma MisleadingText(v: Value)
    requires v == List([List([]), Int(U8, 1)])
    ensures Text(v) == "[[],1]"
    ensures TokensOf(v, 0) == [Token(Array, 0, 6, 2), Token(Array, 1, 3, 0), Token(Primitive, 4, 5, 0)]
  {
    assert Text(v.items[0]) == "[]";
    assert Text(v.items[1]) == Number(1) == Decimal(1) == "1";
    assert Rest(v, 1) == "1";
    assert Rest(v, 0) == "[],1";
    assert TokensOf(v.items[0], 1) == [Token(Array, 1, 3, 0)];
    assert RestTokens(v, 1, 4) == [Token(Primitive, 4, 5, 0)];
  }

  /** A bracket behind [[],1] stands in for the one that was jumped over, so that the text is taken for [[1]]. */
  lemma BracketBehindMisleads(behind: string, longBits: nat)
    requires longBits > 0 && BracketFollows(behind)
    ensures exists v, s, capacity ::
              |TokensOf(v, 0)| <= capacity && Decodes(v, behind, s, capacity, longBits) && !Matches(s, v)
  {
    hide Strto, Cast, Parse;
    var v, s := List([List([]), Int(U8, 1)]), Items([Items([Leaf(U8)])]);
    MisleadingText(v);
    var js, ts := Text(v) + behind, TokensOf(v, 0);
    TextIsTokenised(v, |ts|);
    NumberIsReadToItsEnd(js, 4, 1, U8, longBits);
    assert Decodes(v, behind, s, |ts|, longBits);
  }

  /** Decoding any text into variables of any shape succeeds if and only if the arrays of the shape have the lengths of
      the value's lists, provided that no closing bracket is left in the buffer right behind the text. */
  lemma DecodesExactlyTheMatchingShapes(behind: string, longBits: nat)
    requires longBits > 0
    ensures (forall v, s, capacity | |TokensOf(v, 0)| <= capacity ::
               Decodes(v, behind, s, capacity, longBits) <==> Matches(s, v))
            <==> !BracketFollows(behind)
  {
    hide Decodes, Matches, TokensOf;
    if BracketFollows(behind) {
      BracketBehindMisleads(behind, longBits);
    } else {
      forall v, s, capacity | |TokensOf(v, 0)| <= capacity
        ensures Decodes(v, behind, s, capacity, longBits) <==> Matches(s, v)
      {
        if v.Int? {
          NumberDecodesExactly(v, behind, s, capacity, longBits);
        } else {
          ListDecodesExactly(v, behind, s, capacity, longBits);
        }
      }
    }
  }
}
