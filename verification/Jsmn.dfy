/** The JSON tokeniser: one pass over the text that appends tokens to an array and uses the tokens that are still
    open as its stack. First as a function of the parser's state, with what it promises; the in-place parser
    in JsmnParser is proved to do the same. */
module Jsmn {

  datatype Kind = Object | Array | String | Primitive

  /** `end` is -1 while a container is open. */
  datatype Token = Token(kind: Kind, start: int, end: int, size: nat)

  predicate Open(t: Token) { t.start != -1 && t.end == -1 }

  /** `tokens` are the tokens allocated so far, so toknext is its length. */
  datatype Parser = Parser(pos: nat, tokens: seq<Token>, toksuper: int)

  const Init := Parser(0, [], -1)

  datatype Failure = NoMem | Inval | Part

  datatype Outcome = Going(parser: Parser) | Stopped(failure: Failure, parser: Parser)

  // ----- scanning

  predicate Ends(js: string, i: nat) { i >= |js| || js[i] == '\0' }

  predicate Delimiter(c: char) {
    c == ':' || c == '\t' || c == '\r' || c == '\n' || c == ' ' || c == ',' || c == ']' || c == '}'
  }

  predicate Printable(c: char) { 32 as char <= c < 127 as char }

  datatype Scan = Found(at: nat) | Invalid | Missing

  /** The end of an unquoted value. */
  function ScanPrimitive(js: string, i: nat): (r: Scan)
    requires i <= |js|
    ensures r.Found? ==> i <= r.at <= |js|
    ensures r != Missing
    decreases |js| - i
  {
    if Ends(js, i) || Delimiter(js[i]) then Found(i)
    else if !Printable(js[i]) then Invalid
    else ScanPrimitive(js, i + 1)
  }

  predicate Hex(c: char) { '0' <= c <= '9' || 'A' <= c <= 'F' || 'a' <= c <= 'f' }

  /** At most `n` hex digits from here on; fewer only where the text ends. */
  function ScanHex(js: string, i: nat, n: nat): (r: Scan)
    requires i <= |js|
    ensures r.Found? ==> i <= r.at <= |js|
    ensures r != Missing
    decreases n
  {
    if n == 0 || Ends(js, i) then Found(i)
    else if !Hex(js[i]) then Invalid
    else ScanHex(js, i + 1, n - 1)
  }

  predicate Escape(c: char) {
    c == '"' || c == '/' || c == '\\' || c == 'b' || c == 'f' || c == 'r' || c == 'n' || c == 't'
  }

  /** The closing quote. */
  function ScanString(js: string, i: nat): (r: Scan)
    requires i <= |js|
    ensures r.Found? ==> i <= r.at < |js|
    decreases |js| - i
  {
    if Ends(js, i) then Missing
    else if js[i] == '"' then Found(i)
    else if js[i] == '\\' && i + 1 < |js| then
      if Escape(js[i + 1]) then ScanString(js, i + 2)
      else if js[i + 1] == 'u' then
        var digits := ScanHex(js, i + 2, 4);
        if digits.Found? then ScanString(js, digits.at) else Invalid
      else Invalid
    else ScanString(js, i + 1)
  }

  // ----- tokens

  /** The last token before `n` that is still open, or -1. */
  function LastOpen(tokens: seq<Token>, n: nat): (i: int)
    requires n <= |tokens|
    ensures -1 <= i < n
    ensures i >= 0 ==> Open(tokens[i])
    ensures forall k | i < k < n :: !Open(tokens[k])
  {
    if n == 0 then -1 else if Open(tokens[n - 1]) then n - 1 else LastOpen(tokens, n - 1)
  }

  /** One more child for the superior token. */
  function Bump(tokens: seq<Token>, i: int): (r: seq<Token>)
    requires i < |tokens|
    ensures |r| == |tokens|
  {
    if i < 0 then tokens else tokens[i := tokens[i].(size := tokens[i].size + 1)]
  }

  /** Appending a value to the superior token. */
  function Add(p: Parser, t: Token, pos: nat): Parser
    requires p.toksuper < |p.tokens|
  {
    Parser(pos, Bump(p.tokens, p.toksuper) + [t], p.toksuper)
  }

  function OpenToken(p: Parser, kind: Kind): Parser
    requires p.toksuper < |p.tokens|
  {
    Add(p, Token(kind, p.pos, -1, 0), p.pos + 1).(toksuper := |p.tokens|)
  }

  function CloseToken(p: Parser, kind: Kind): Outcome {
    var i := LastOpen(p.tokens, |p.tokens|);
    if i < 0 || p.tokens[i].kind != kind then Stopped(Inval, p)
    else
      var tokens := p.tokens[i := p.tokens[i].(end := p.pos + 1)];
      Going(Parser(p.pos + 1, tokens, LastOpen(tokens, i + 1)))
  }

  /** A string or primitive from `start` to `end`, if there is room for it. */
  function Value(p: Parser, num: nat, t: Token, pos: nat): Outcome
    requires p.toksuper < |p.tokens|
  {
    if |p.tokens| >= num then Stopped(NoMem, p) else Going(Add(p, t, pos))
  }

  predicate Space(c: char) { c == '\t' || c == '\r' || c == '\n' || c == ' ' }

  /** The superior token after a comma: the innermost open container, if the superior token was a key. */
  function AfterComma(p: Parser): int
    requires p.toksuper < |p.tokens|
  {
    if p.toksuper >= 0 && p.tokens[p.toksuper].kind != Array && p.tokens[p.toksuper].kind != Object
       && LastOpen(p.tokens, |p.tokens|) >= 0
    then LastOpen(p.tokens, |p.tokens|) else p.toksuper
  }

  /** One round of the main loop, with room for `num` tokens. */
  function Step(js: string, num: nat, p: Parser): (o: Outcome)
    requires !Ends(js, p.pos) && p.toksuper < |p.tokens|
    ensures o.Going? ==> p.pos < o.parser.pos <= |js| && o.parser.toksuper < |o.parser.tokens|
  {
    var c := js[p.pos];
    if c == '{' || c == '[' then
      if |p.tokens| >= num then Stopped(NoMem, p)
      else Going(OpenToken(p, if c == '{' then Object else Array))
    else if c == '}' || c == ']' then
      CloseToken(p, if c == '}' then Object else Array)
    else if c == '"' then
      match ScanString(js, p.pos + 1)
      case Found(q) => Value(p, num, Token(String, p.pos + 1, q, 0), q + 1)
      case Invalid => Stopped(Inval, p)
      case Missing => Stopped(Part, p)
    else if Space(c) then Going(p.(pos := p.pos + 1))
    else if c == ':' then Going(p.(pos := p.pos + 1, toksuper := |p.tokens| - 1))
    else if c == ',' then Going(p.(pos := p.pos + 1, toksuper := AfterComma(p)))
    else
      var scan := ScanPrimitive(js, p.pos);
      if !scan.Found? then Stopped(Inval, p)
      else
        PrimitiveHasLength(js, p.pos);
        Value(p, num, Token(Primitive, p.pos, scan.at, 0), scan.at)
  }

  lemma PrimitiveHasLength(js: string, i: nat)
    requires i < |js| && !Ends(js, i) && !Delimiter(js[i])
    ensures ScanPrimitive(js, i).Found? ==> ScanPrimitive(js, i).at > i
  {
  }

  /** jsmn_parse from state p on. Success means that no container is left open. */
  function Parse(js: string, num: nat, p: Parser): Outcome
    requires p.pos <= |js| && p.toksuper < |p.tokens|
    decreases |js| - p.pos
  {
    if Ends(js, p.pos) then
      if LastOpen(p.tokens, |p.tokens|) >= 0 then Stopped(Part, p) else Going(p)
    else
      var o := Step(js, num, p);
      if o.Going? then Parse(js, num, o.parser) else o
  }

  /** What jsmn_init and every call of jsmn_parse leave behind: only containers are open. */
  predicate Sane(p: Parser) {
    && -1 <= p.toksuper < |p.tokens|
    && forall t <- p.tokens :: Open(t) ==> t.kind == Array || t.kind == Object
  }

  lemma StepStaysSane(js: string, num: nat, p: Parser)
    requires Sane(p) && !Ends(js, p.pos)
    ensures var o := Step(js, num, p); Sane(o.parser)
  {
    var o := Step(js, num, p);
    forall t | t in o.parser.tokens && Open(t) ensures t.kind == Array || t.kind == Object {
      var i :| 0 <= i < |o.parser.tokens| && o.parser.tokens[i] == t;
      if i < |p.tokens| {
        assert p.tokens[i] in p.tokens;
      }
    }
  }

  // ----- tokens are well nested

  predicate Bracketed(js: string, t: Token)
    requires 0 <= t.start < |js| && -1 <= t.end <= |js|
  {
    match t.kind
    case Object => js[t.start] == '{' && (t.end != -1 ==> t.start < t.end && js[t.end - 1] == '}')
    case Array => js[t.start] == '[' && (t.end != -1 ==> t.start < t.end && js[t.end - 1] == ']')
    case _ => t.end >= 0
  }

  /** Every token lies in the text that has been read; an open one is a container. */
  predicate Placed(js: string, t: Token, pos: nat)
    requires pos <= |js|
  {
    && 0 <= t.start < pos
    && (t.end == -1 || t.start <= t.end <= pos)
    && Bracketed(js, t)
  }

  /** Of two tokens the later one lies behind the earlier one or in it. */
  predicate Nested(a: Token, b: Token) {
    && a.start < b.start
    && (a.end != -1 ==> a.end <= b.start || (b.end != -1 && b.end <= a.end))
  }

  predicate WellNested(js: string, p: Parser) {
    && p.pos <= |js|
    && -1 <= p.toksuper < |p.tokens|
    && (forall i | 0 <= i < |p.tokens| :: Placed(js, p.tokens[i], p.pos))
    && (forall i, j | 0 <= i < j < |p.tokens| :: Nested(p.tokens[i], p.tokens[j]))
  }

  lemma AddStaysNested(js: string, p: Parser, t: Token, pos: nat)
    requires WellNested(js, p) && p.pos <= t.start && p.pos < pos <= |js| && Placed(js, t, pos)
    ensures WellNested(js, Add(p, t, pos))
  {
    var ts := Add(p, t, pos).tokens;
    forall i | 0 <= i < |ts| ensures Placed(js, ts[i], pos) {
      if i < |p.tokens| {
        assert Placed(js, p.tokens[i], p.pos);
      }
    }
    forall i, j | 0 <= i < j < |ts| ensures Nested(ts[i], ts[j]) {
      assert Placed(js, p.tokens[i], p.pos);
      if j < |p.tokens| {
        assert Nested(p.tokens[i], p.tokens[j]);
      }
    }
  }

  lemma CloseStaysNested(js: string, p: Parser, kind: Kind)
    requires WellNested(js, p) && p.pos < |js|
    requires (kind == Object && js[p.pos] == '}') || (kind == Array && js[p.pos] == ']')
    ensures var o := CloseToken(p, kind); o.Going? ==> WellNested(js, o.parser)
  {
    var o := CloseToken(p, kind);
    var k := LastOpen(p.tokens, |p.tokens|);
    if o.Going? {
      var ts := o.parser.tokens;
      forall i | 0 <= i < |ts| ensures Placed(js, ts[i], p.pos + 1) {
        assert Placed(js, p.tokens[i], p.pos);
      }
      forall i, j | 0 <= i < j < |ts| ensures Nested(ts[i], ts[j]) {
        assert Nested(p.tokens[i], p.tokens[j]);
        assert Placed(js, p.tokens[j], p.pos);
      }
    }
  }

  lemma MovingOnStaysNested(js: string, p: Parser, p': Parser)
    requires WellNested(js, p) && p'.tokens == p.tokens && p.pos <= p'.pos <= |js|
    requires -1 <= p'.toksuper < |p.tokens|
    ensures WellNested(js, p')
  {
    forall i | 0 <= i < |p.tokens| ensures Placed(js, p'.tokens[i], p'.pos) {
      assert Placed(js, p.tokens[i], p.pos);
    }
  }

  lemma StepStaysNested(js: string, num: nat, p: Parser)
    requires WellNested(js, p) && !Ends(js, p.pos)
    ensures var o := Step(js, num, p); o.Going? ==> WellNested(js, o.parser)
  {
    var o := Step(js, num, p);
    var c := js[p.pos];
    if o.Going? {
      if c == '{' || c == '[' {
        AddStaysNested(js, p, Token(if c == '{' then Object else Array, p.pos, -1, 0), p.pos + 1);
        MovingOnStaysNested(js, Add(p, o.parser.tokens[|p.tokens|], p.pos + 1), o.parser);
      } else if c == '}' || c == ']' {
        CloseStaysNested(js, p, if c == '}' then Object else Array);
      } else if c == '"' || !(Space(c) || c == ':' || c == ',') {
        AddStaysNested(js, p, o.parser.tokens[|p.tokens|], o.parser.pos);
      } else {
        MovingOnStaysNested(js, p, o.parser);
      }
    }
  }

  lemma {:induction false} ParseStaysNested(js: string, num: nat, p: Parser)
    requires WellNested(js, p) && |p.tokens| <= num
    ensures var o := Parse(js, num, p); o.Going? ==> WellNested(js, o.parser) && |o.parser.tokens| <= num
    decreases |js| - p.pos
  {
    if !Ends(js, p.pos) && Step(js, num, p).Going? {
      StepStaysNested(js, num, p);
      ParseStaysNested(js, num, Step(js, num, p).parser);
    }
  }

  /** When a fresh parse succeeds: the tokens fit, lie in the text, start in order, are nested or disjoint, none is
      open, and containers begin and end with their brackets. */
  lemma TokensAreWellNested(js: string, num: nat)
    requires Parse(js, num, Init).Going?
    ensures var ts := Parse(js, num, Init).parser.tokens;
            && |ts| <= num
            && (forall i | 0 <= i < |ts| ::
                  && 0 <= ts[i].start <= ts[i].end <= |js|
                  && (ts[i].kind == Object || ts[i].kind == Array ==> ts[i].start < ts[i].end)
                  && (ts[i].kind == Object ==> js[ts[i].start] == '{' && js[ts[i].end - 1] == '}')
                  && (ts[i].kind == Array ==> js[ts[i].start] == '[' && js[ts[i].end - 1] == ']'))
            && (forall i, j | 0 <= i < j < |ts| ::
                  && ts[i].start < ts[j].start
                  && (ts[i].end <= ts[j].start || ts[j].end <= ts[i].end))
  {
    ParseStaysNested(js, num, Init);
    NothingLeftOpen(js, num, Init);
    var p := Parse(js, num, Init).parser;
    forall i | 0 <= i < |p.tokens|
      ensures 0 <= p.tokens[i].start <= p.tokens[i].end <= |js| && p.tokens[i].start < |js|
      ensures Bracketed(js, p.tokens[i])
    {
      assert Placed(js, p.tokens[i], p.pos);
      assert !Open(p.tokens[i]);
    }
    forall i, j | 0 <= i < j < |p.tokens| ensures Nested(p.tokens[i], p.tokens[j]) {
    }
  }

  lemma {:induction false} NothingLeftOpen(js: string, num: nat, p: Parser)
    requires p.pos <= |js| && p.toksuper < |p.tokens| && Parse(js, num, p).Going?
    ensures forall t <- Parse(js, num, p).parser.tokens :: !Open(t)
    decreases |js| - p.pos
  {
    if !Ends(js, p.pos) {
      NothingLeftOpen(js, num, Step(js, num, p).parser);
    }
  }

  // ----- a parse that ran out of tokens can be resumed

  lemma MoreRoomSameStep(js: string, n: nat, m: nat, p: Parser)
    requires n <= m && !Ends(js, p.pos) && p.toksuper < |p.tokens|
    ensures var o := Step(js, n, p);
            if o.Stopped? && o.failure == NoMem then o.parser == p else Step(js, m, p) == o
  {
  }

  /** A NOMEM stop is resumable: going on with a larger array from where the small one ended gives the result that one
      parse with the larger array gives. */
  lemma {:induction false} NoMemIsResumable(js: string, n: nat, m: nat, p: Parser)
    requires n <= m && p.pos <= |js| && p.toksuper < |p.tokens|
    requires Parse(js, n, p).Stopped? && Parse(js, n, p).failure == NoMem
    ensures var q := Parse(js, n, p).parser;
            && q.pos <= |js| && q.toksuper < |q.tokens| && |q.tokens| >= n
            && Parse(js, m, q) == Parse(js, m, p)
    decreases |js| - p.pos
  {
    if !Ends(js, p.pos) {
      MoreRoomSameStep(js, n, m, p);
      var o := Step(js, n, p);
      if o.Going? {
        NoMemIsResumable(js, n, m, o.parser);
      }
    }
  }

  /** Otherwise the larger array makes no difference at all. */
  lemma {:induction false} RoomIsAllThatMatters(js: string, n: nat, m: nat, p: Parser)
    requires n <= m && p.pos <= |js| && p.toksuper < |p.tokens|
    requires !(Parse(js, n, p).Stopped? && Parse(js, n, p).failure == NoMem)
    ensures Parse(js, m, p) == Parse(js, n, p)
    decreases |js| - p.pos
  {
    if !Ends(js, p.pos) {
      MoreRoomSameStep(js, n, m, p);
      var o := Step(js, n, p);
      if o.Going? {
        RoomIsAllThatMatters(js, n, m, o.parser);
      }
    }
  }
}
