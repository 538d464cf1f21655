/** What the tokeniser makes of any JSON text: objects with string keys, arrays, strings with their escapes and
    primitives, with any white space between them. Text and tokens are defined from the value; nothing here looks at
    the scanners. */
module JsonTokens {
  import opened Jsmn
  import opened TextValue
  import opened Wrappers

  // ----- values and their text

  /** A character of a string: itself, a backslash and a letter, or a backslash, `u` and four hexadecimal digits. */
  datatype StringChar = Plain(c: char) | Escaped(c: char) | Unicode(digits: string)
  {
    predicate Valid() {
      match this
      case Plain(c) => c != '"' && c != '\\' && c != '\0'
      case Escaped(c) => Escape(c)
      case Unicode(digits) => |digits| == 4 && forall d <- digits :: Hex(d)
    }

    function Source(): string {
      match this
      case Plain(c) => [c]
      case Escaped(c) => ['\\', c]
      case Unicode(digits) => "\\u" + digits
    }
  }

  type Chars = seq<StringChar>

  /** The key of a member with the white space on either side of its colon. */
  datatype Key = Key(chars: Chars, before: string, after: string)

  /** A value with what stands in front of it and the white space around that. */
  datatype Entry = Entry(before: string, key: Option<Key>, value: Json, after: string)

  /** Numbers, booleans and null are primitives; `inner` is white space before the closing bracket. */
  datatype Json =
    | Plainly(text: string)
    | Quoted(chars: Chars)
    | Container(kind: Kind, entries: seq<Entry>, inner: string)

  predicate Blank(s: string) { forall c <- s :: Space(c) }

  predicate Primary(s: string) {
    && s != "" && s[0] != '{' && s[0] != '[' && s[0] != '"'
    && forall c <- s :: Printable(c) && !Delimiter(c)
  }

  predicate AllValid(chars: Chars) { forall c <- chars :: c.Valid() }

  predicate WellFormed(j: Json)
    decreases j, 1, 0
  {
    match j
    case Plainly(text) => Primary(text)
    case Quoted(chars) => AllValid(chars)
    case Container(kind, entries, inner) =>
      (kind == Array || kind == Object) && Blank(inner) && forall e <- entries :: EntryValid(kind, e)
  }

  /** Members of objects have keys, and elements of arrays do not. */
  predicate EntryValid(kind: Kind, e: Entry)
    decreases e, 2, 0
  {
    && Blank(e.before) && Blank(e.after) && WellFormed(e.value) && (e.key.Some? <==> kind == Object)
    && (e.key.Some? ==> AllValid(e.key.value.chars) && Blank(e.key.value.before) && Blank(e.key.value.after))
  }

  function CharsSource(chars: Chars): string {
    if chars == [] then "" else chars[0].Source() + CharsSource(chars[1..])
  }

  function QuotedSource(chars: Chars): string { "\"" + CharsSource(chars) + "\"" }

  function KeySource(key: Option<Key>): string {
    match key
    case None => ""
    case Some(k) => QuotedSource(k.chars) + k.before + ":" + k.after
  }

  function Opening(kind: Kind): string { if kind == Object then "{" else "[" }

  function Closing(kind: Kind): string { if kind == Object then "}" else "]" }

  function Source(j: Json): string
    decreases j, 1, 0
  {
    match j
    case Plainly(text) => text
    case Quoted(chars) => QuotedSource(chars)
    case Container(kind, _, _) => Opening(kind) + (EntriesSource(j, 0) + Closing(kind))
  }

  function EntrySource(e: Entry): string
    decreases e, 2, 0
  {
    e.before + (KeySource(e.key) + (Source(e.value) + e.after))
  }

  function Comma(j: Json, i: nat): string
    requires j.Container?
  {
    if i + 1 < |j.entries| then "," else ""
  }

  /** The entries from `i` on and the white space behind the last. */
  function EntriesSource(j: Json, i: nat): string
    requires j.Container? && i <= |j.entries|
    decreases j, 0, |j.entries| - i
  {
    if i == |j.entries| then j.inner
    else EntrySource(j.entries[i]) + (Comma(j, i) + EntriesSource(j, i + 1))
  }

  // ----- tokens

  /** The tokens of j when its text stands at position p. An object counts its keys, and a key its value. */
  function Tokens(j: Json, p: nat): (r: seq<Token>)
    ensures |r| > 0
    decreases j, 1, 0
  {
    match j
    case Plainly(text) => [Token(Primitive, p, p + |text|, 0)]
    case Quoted(chars) => [Token(String, p + 1, p + 1 + |CharsSource(chars)|, 0)]
    case Container(kind, entries, _) => [Token(kind, p, p + |Source(j)|, |entries|)] + EntriesTokens(j, 0, p + 1)
  }

  function KeyTokens(key: Option<Key>, p: nat): seq<Token> {
    match key
    case None => []
    case Some(k) => [Token(String, p + 1, p + 1 + |CharsSource(k.chars)|, 1)]
  }

  function EntryTokens(e: Entry, p: nat): seq<Token>
    decreases e, 2, 0
  {
    var q := p + |e.before|;
    KeyTokens(e.key, q) + Tokens(e.value, q + |KeySource(e.key)|)
  }

  function EntriesTokens(j: Json, i: nat, p: nat): seq<Token>
    requires j.Container? && i <= |j.entries|
    decreases j, 0, |j.entries| - i
  {
    if i == |j.entries| then []
    else EntryTokens(j.entries[i], p)
         + EntriesTokens(j, i + 1, p + |EntrySource(j.entries[i])| + |Comma(j, i)|)
  }

  // ----- open and closed tokens

  predicate AllClosed(ts: seq<Token>) { forall t <- ts :: !Open(t) }

  lemma {:induction false} TokensAreClosed(j: Json, p: nat)
    ensures AllClosed(Tokens(j, p))
    decreases j, 1, 0
  {
    if j.Container? {
      EntriesTokensAreClosed(j, 0, p + 1);
    }
  }

  lemma {:induction false} EntryTokensAreClosed(e: Entry, p: nat)
    ensures AllClosed(EntryTokens(e, p))
    decreases e, 2, 0
  {
    hide Tokens, KeySource;
    TokensAreClosed(e.value, p + |e.before| + |KeySource(e.key)|);
  }

  lemma {:induction false} EntriesTokensAreClosed(j: Json, i: nat, p: nat)
    requires j.Container? && i <= |j.entries|
    ensures AllClosed(EntriesTokens(j, i, p))
    decreases j, 0, |j.entries| - i
  {
    hide EntryTokens, EntrySource, Open;
    if i < |j.entries| {
      EntryTokensAreClosed(j.entries[i], p);
      EntriesTokensAreClosed(j, i + 1, p + |EntrySource(j.entries[i])| + |Comma(j, i)|);
    }
  }

  lemma {:induction false} LastOpenBehind(base: seq<Token>, more: seq<Token>, n: nat)
    requires |base| <= n <= |base| + |more| && AllClosed(more)
    ensures LastOpen(base + more, n) == LastOpen(base, |base|)
    decreases n
  {
    if n > |base| {
      assert (base + more)[n - 1] == more[n - 1 - |base|];
      LastOpenBehind(base, more, n - 1);
    } else {
      LastOpenPrefix(base, more, n);
    }
  }

  lemma {:induction false} LastOpenPrefix(base: seq<Token>, more: seq<Token>, n: nat)
    requires n <= |base|
    ensures LastOpen(base + more, n) == LastOpen(base, n)
  {
    if n > 0 {
      LastOpenPrefix(base, more, n - 1);
    }
  }

  /** One more child does not open or close anything. */
  lemma {:induction false} LastOpenAfterBump(ts: seq<Token>, k: int, n: nat)
    requires k < |ts| && n <= |ts|
    ensures LastOpen(Bump(ts, k), n) == LastOpen(ts, n)
  {
    if n > 0 {
      LastOpenAfterBump(ts, k, n - 1);
    }
  }

  // ----- white space, primitives and strings

  predicate Linked(p: Parser) { -1 <= p.toksuper < |p.tokens| }

  lemma SkipSpace(js: string, num: nat, p: Parser)
    requires Linked(p) && p.pos < |js| && Space(js[p.pos])
    ensures Parse(js, num, p) == Parse(js, num, p.(pos := p.pos + 1))
  {
  }

  lemma {:induction false} ParseBlank(js: string, num: nat, p: Parser, s: string)
    requires Linked(p) && At(js, p.pos, s) && Blank(s)
    ensures Parse(js, num, p) == Parse(js, num, p.(pos := p.pos + |s|))
    decreases |s|
  {
    hide Parse, Step, Space;
    if s != "" {
      assert js[p.pos] == s[0];
      assert At(js, p.pos + 1, s[1..]);
      SkipSpace(js, num, p);
      ParseBlank(js, num, p.(pos := p.pos + 1), s[1..]);
    }
  }

  /** A primitive ends here. */
  predicate Boundary(js: string, i: nat) { Ends(js, i) || Delimiter(js[i]) }

  /** So it does before white space, if it would end behind that. */
  lemma BlankIsBoundary(js: string, i: nat, s: string)
    requires Blank(s) && At(js, i, s) && Boundary(js, i + |s|)
    ensures Boundary(js, i)
  {
    if s != "" {
      assert js[i] == s[0] && Space(s[0]);
    }
  }

  /** The end of a primitive is found exactly where printable characters end. */
  lemma {:induction false} PrimitiveFoundExactlyIf(js: string, i: nat, n: nat)
    requires i <= n <= |js|
    ensures ScanPrimitive(js, i) == Found(n)
            <==> Boundary(js, n) && forall k | i <= k < n :: Printable(js[k]) && !Delimiter(js[k])
    decreases n - i
  {
    if i < n {
      PrimitiveFoundExactlyIf(js, i + 1, n);
    }
  }

  lemma HexIsScanned(js: string, i: nat, digits: string)
    requires |digits| == 4 && At(js, i, digits) && forall d <- digits :: Hex(d)
    ensures ScanHex(js, i, 4) == Found(i + 4)
  {
    assert js[i] == digits[0] && js[i + 1] == digits[1] && js[i + 2] == digits[2] && js[i + 3] == digits[3];
    assert Hex(digits[0]) && Hex(digits[1]) && Hex(digits[2]) && Hex(digits[3]);
    assert ScanHex(js, i + 4, 0) == Found(i + 4);
    assert ScanHex(js, i + 3, 1) == Found(i + 4);
    assert ScanHex(js, i + 2, 2) == Found(i + 4);
    assert ScanHex(js, i + 1, 3) == Found(i + 4);
  }

  lemma CharIsScanned(js: string, i: nat, c: StringChar)
    requires c.Valid() && At(js, i, c.Source()) && i + |c.Source()| < |js|
    ensures ScanString(js, i) == ScanString(js, i + |c.Source()|)
  {
    assert js[i] == c.Source()[0];
    match c {
      case Plain(_) =>
      case Escaped(_) => assert js[i + 1] == c.Source()[1];
      case Unicode(digits) =>
        assert js[i + 1] == c.Source()[1];
        AtSplit(js, i, "\\u", digits);
        HexIsScanned(js, i + 2, digits);
    }
  }

  lemma {:induction false} StringIsScanned(js: string, i: nat, chars: Chars)
    requires AllValid(chars) && At(js, i, CharsSource(chars) + "\"")
    ensures ScanString(js, i) == Found(i + |CharsSource(chars)|)
    decreases |chars|
  {
    hide ScanString, StringChar.Source, StringChar.Valid;
    if chars == [] {
      QuoteEnds(js, i);
    } else {
      FirstChar(js, i, chars);
      CharIsScanned(js, i, chars[0]);
      StringIsScanned(js, i + |chars[0].Source()|, chars[1..]);
    }
  }

  lemma FirstChar(js: string, i: nat, chars: Chars)
    requires chars != [] && At(js, i, CharsSource(chars) + "\"")
    ensures var c := chars[0].Source();
            && At(js, i, c) && At(js, i + |c|, CharsSource(chars[1..]) + "\"") && i + |c| < |js|
            && |CharsSource(chars)| == |c| + |CharsSource(chars[1..])|
  {
    hide StringChar.Source;
    var rest := CharsSource(chars[1..]) + "\"";
    assert CharsSource(chars) + "\"" == chars[0].Source() + rest;
    AtSplit(js, i, chars[0].Source(), rest);
  }

  /** The characters of the string that is found here. */
  lemma {:induction false} CharsOf(js: string, i: nat) returns (chars: Chars)
    requires i <= |js| && ScanString(js, i).Found?
    ensures AllValid(chars) && ScanString(js, i) == Found(i + |CharsSource(chars)|)
    ensures At(js, i, CharsSource(chars) + "\"")
    decreases |js| - i
  {
    if js[i] == '"' {
      chars := [];
    } else {
      var c := CharOf(js, i);
      var rest := CharsOf(js, i + |c.Source()|);
      chars := [c] + rest;
      Prepended(js, i, c, rest);
    }
  }

  lemma Prepended(js: string, i: nat, c: StringChar, rest: Chars)
    requires At(js, i, c.Source()) && At(js, i + |c.Source()|, CharsSource(rest) + "\"")
    ensures CharsSource([c] + rest) == c.Source() + CharsSource(rest)
    ensures At(js, i, CharsSource([c] + rest) + "\"")
  {
    hide StringChar.Source;
    assert ([c] + rest)[1..] == rest;
    var first, behind := c.Source(), CharsSource(rest) + "\"";
    assert js[i..i + |first + behind|] == js[i..i + |first|] + js[i + |first|..i + |first| + |behind|];
    assert CharsSource([c] + rest) + "\"" == first + behind;
  }

  lemma CharOf(js: string, i: nat) returns (c: StringChar)
    requires i < |js| && ScanString(js, i).Found? && js[i] != '"'
    ensures c.Valid() && At(js, i, c.Source()) && ScanString(js, i) == ScanString(js, i + |c.Source()|)
  {
    if js[i] != '\\' {
      c := Plain(js[i]);
    } else if Escape(js[i + 1]) {
      c := Escaped(js[i + 1]);
    } else {
      FourDigits(js, i + 2);
      c := Unicode(js[i + 2..i + 6]);
    }
  }

  /** Fewer than four digits end the text, and so does no string. */
  lemma FourDigits(js: string, i: nat)
    requires i <= |js| && ScanHex(js, i, 4).Found? && ScanString(js, ScanHex(js, i, 4).at).Found?
    ensures ScanHex(js, i, 4) == Found(i + 4) && i + 4 <= |js| && forall k | i <= k < i + 4 :: Hex(js[k])
  {
    HexFound(js, i, 4);
  }

  lemma {:induction false} HexFound(js: string, i: nat, n: nat)
    requires i <= |js| && ScanHex(js, i, n).Found?
    ensures var q := ScanHex(js, i, n).at;
            i <= q <= i + n && (q < i + n ==> Ends(js, q)) && forall k | i <= k < q :: Hex(js[k])
    decreases n
  {
    if n > 0 && !Ends(js, i) {
      HexFound(js, i + 1, n - 1);
    }
  }

  /** The closing quote is found exactly behind any number of characters, each with its escape. */
  lemma StringFoundExactlyIf(js: string, i: nat, q: nat)
    requires i <= |js|
    ensures ScanString(js, i) == Found(q)
            <==> exists chars: Chars ::
                   AllValid(chars) && At(js, i, CharsSource(chars) + "\"") && q == i + |CharsSource(chars)|
  {
    if ScanString(js, i) == Found(q) {
      var chars := CharsOf(js, i);
      assert AllValid(chars) && At(js, i, CharsSource(chars) + "\"");
    }
    forall chars: Chars | AllValid(chars) && At(js, i, CharsSource(chars) + "\"")
      ensures ScanString(js, i) == Found(i + |CharsSource(chars)|)
    {
      StringIsScanned(js, i, chars);
    }
  }

  lemma QuoteEnds(js: string, i: nat)
    requires At(js, i, "\"")
    ensures ScanString(js, i) == Found(i)
  {
    assert js[i] == "\""[0];
  }

  // ----- one value

  /** The state after the value j: its tokens are there and its superior has one more child. A container leaves the
      innermost open one as the superior. */
  function After(p: Parser, j: Json): Parser
    requires Linked(p)
  {
    Parser(p.pos + |Source(j)|, Bump(p.tokens, p.toksuper) + Tokens(j, p.pos),
           if j.Container? then LastOpen(p.tokens, |p.tokens|) else p.toksuper)
  }

  lemma ParsePlainly(js: string, num: nat, p: Parser, j: Json)
    requires j.Plainly? && WellFormed(j) && Linked(p) && At(js, p.pos, Source(j)) && |p.tokens| < num
    requires Boundary(js, p.pos + |Source(j)|)
    ensures Parse(js, num, p) == Parse(js, num, After(p, j))
  {
    var text := j.text;
    forall k | p.pos <= k < p.pos + |text| ensures Printable(js[k]) && !Delimiter(js[k]) {
      assert js[k] == text[k - p.pos];
    }
    PrimitiveFoundExactlyIf(js, p.pos, p.pos + |text|);
    assert js[p.pos] == text[0];
    assert Step(js, num, p) == Going(After(p, j));
  }

  /** A string value, or the key of a member before its colon. */
  lemma ParseQuoted(js: string, num: nat, p: Parser, chars: Chars)
    requires AllValid(chars) && Linked(p) && At(js, p.pos, QuotedSource(chars)) && |p.tokens| < num
    ensures Parse(js, num, p) == Parse(js, num, After(p, Quoted(chars)))
  {
    hide CharsSource, AllValid;
    assert QuotedSource(chars) == "\"" + (CharsSource(chars) + "\"");
    AtSplit(js, p.pos, "\"", CharsSource(chars) + "\"");
    StringIsScanned(js, p.pos + 1, chars);
    assert js[p.pos] == "\""[0];
    assert Step(js, num, p) == Going(After(p, Quoted(chars)));
  }

  // ----- containers

  /** In a container that was opened at `start`, behind `base` and before `done`, with n entries begun. */
  function Inside(kind: Kind, base: seq<Token>, start: nat, done: seq<Token>, n: nat, pos: nat, toksuper: int): Parser {
    Parser(pos, base + [Token(kind, start, -1, n)] + done, toksuper)
  }

  lemma InnermostOpen(kind: Kind, base: seq<Token>, start: nat, done: seq<Token>, n: nat)
    requires AllClosed(done)
    ensures var ts := base + [Token(kind, start, -1, n)] + done; LastOpen(ts, |ts|) == |base|
  {
    LastOpenBehind(base + [Token(kind, start, -1, n)], done, |base| + 1 + |done|);
  }

  lemma OpenContainer(js: string, num: nat, p: Parser, kind: Kind)
    requires (kind == Array || kind == Object) && Linked(p) && At(js, p.pos, Opening(kind)) && |p.tokens| < num
    ensures var base := Bump(p.tokens, p.toksuper);
            && Parse(js, num, p) == Parse(js, num, Inside(kind, base, p.pos, [], 0, p.pos + 1, |base|))
            && LastOpen(base, |base|) == LastOpen(p.tokens, |p.tokens|)
  {
    LastOpenAfterBump(p.tokens, p.toksuper, |p.tokens|);
    assert js[p.pos] == Opening(kind)[0];
    var base := Bump(p.tokens, p.toksuper);
    assert base + [Token(kind, p.pos, -1, 0)] == base + [Token(kind, p.pos, -1, 0)] + [];
    assert Step(js, num, p) == Going(Inside(kind, base, p.pos, [], 0, p.pos + 1, |base|));
  }

  lemma CloseContainer(js: string, num: nat, kind: Kind, base: seq<Token>, start: nat, done: seq<Token>, n: nat,
                       pos: nat, toksuper: int)
    requires (kind == Array || kind == Object) && AllClosed(done) && At(js, pos, Closing(kind))
    requires Linked(Inside(kind, base, start, done, n, pos, toksuper))
    ensures Parse(js, num, Inside(kind, base, start, done, n, pos, toksuper))
            == Parse(js, num, Parser(pos + 1, base + [Token(kind, start, pos + 1, n)] + done, LastOpen(base, |base|)))
  {
    var p := Inside(kind, base, start, done, n, pos, toksuper);
    InnermostOpen(kind, base, start, done, n);
    assert js[pos] == Closing(kind)[0];
    var closed := base + [Token(kind, start, pos + 1, n)] + done;
    assert p.tokens[|base| := p.tokens[|base|].(end := pos + 1)] == closed;
    LastOpenPrefix(base, [Token(kind, start, pos + 1, n)] + done, |base|);
    assert closed == base + ([Token(kind, start, pos + 1, n)] + done);
    assert Step(js, num, p) == Going(Parser(pos + 1, closed, LastOpen(base, |base|)));
  }

  /** A comma makes the container the superior again, whether the last value's key was or it was already. */
  lemma Separate(js: string, num: nat, kind: Kind, base: seq<Token>, start: nat, done: seq<Token>, n: nat, pos: nat,
                 toksuper: int)
    requires (kind == Array || kind == Object) && AllClosed(done) && At(js, pos, ",")
    requires Linked(Inside(kind, base, start, done, n, pos, toksuper))
    requires toksuper == |base| || (toksuper > |base| && done[toksuper - |base| - 1].kind == String)
    ensures Parse(js, num, Inside(kind, base, start, done, n, pos, toksuper))
            == Parse(js, num, Inside(kind, base, start, done, n, pos + 1, |base|))
  {
    var p := Inside(kind, base, start, done, n, pos, toksuper);
    InnermostOpen(kind, base, start, done, n);
    assert js[pos] == ","[0];
    assert p.tokens[toksuper] == if toksuper == |base| then Token(kind, start, -1, n) else done[toksuper - |base| - 1];
    assert Step(js, num, p) == Going(Inside(kind, base, start, done, n, pos + 1, |base|));
  }

  /** The key token before its value is counted. */
  function NewKey(k: Key, p: nat): Token { Token(String, p + 1, p + 1 + |CharsSource(k.chars)|, 0) }

  lemma Counted(kind: Kind, base: seq<Token>, start: nat, done: seq<Token>, n: nat)
    ensures Bump(base + [Token(kind, start, -1, n)] + done, |base|) == base + [Token(kind, start, -1, n + 1)] + done
  {
  }

  lemma ParseKey(js: string, num: nat, base: seq<Token>, start: nat, done: seq<Token>, n: nat, pos: nat, k: Key)
    requires AllValid(k.chars) && Blank(k.before) && Blank(k.after) && At(js, pos, KeySource(Some(k)))
    requires |base| + 1 + |done| < num
    ensures var next := pos + |KeySource(Some(k))|;
            Parse(js, num, Inside(Object, base, start, done, n, pos, |base|))
            == Parse(js, num, Inside(Object, base, start, done + [NewKey(k, pos)], n + 1, next, |base| + 1 + |done|))
  {
    hide Parse, CharsSource, QuotedSource, Blank, AllValid, At;
    var quoted := QuotedSource(k.chars);
    var colon := pos + |quoted| + |k.before|;
    var done' := done + [NewKey(k, pos)];
    KeyAt(js, pos, k);
    KeyTaken(js, num, base, start, done, n, pos, k);
    ParseBlank(js, num, Inside(Object, base, start, done', n + 1, pos + |quoted|, |base|), k.before);
    Colon(js, num, Inside(Object, base, start, done', n + 1, colon, |base|));
    ParseBlank(js, num, Inside(Object, base, start, done', n + 1, colon + 1, |base| + 1 + |done|), k.after);
  }

  lemma KeyAt(js: string, pos: nat, k: Key)
    requires At(js, pos, KeySource(Some(k)))
    ensures var quoted := QuotedSource(k.chars);
            var colon := pos + |quoted| + |k.before|;
            && At(js, pos, quoted) && At(js, pos + |quoted|, k.before) && At(js, colon, ":")
            && At(js, colon + 1, k.after) && |KeySource(Some(k))| == |quoted| + |k.before| + 1 + |k.after|
  {
    hide QuotedSource;
    var quoted := QuotedSource(k.chars);
    assert KeySource(Some(k)) == quoted + (k.before + (":" + k.after));
    AtSplit(js, pos, quoted, k.before + (":" + k.after));
    AtSplit(js, pos + |quoted|, k.before, ":" + k.after);
    AtSplit(js, pos + |quoted| + |k.before|, ":", k.after);
  }

  lemma KeyTaken(js: string, num: nat, base: seq<Token>, start: nat, done: seq<Token>, n: nat, pos: nat, k: Key)
    requires AllValid(k.chars) && At(js, pos, QuotedSource(k.chars)) && |base| + 1 + |done| < num
    ensures var next := pos + |QuotedSource(k.chars)|;
            Parse(js, num, Inside(Object, base, start, done, n, pos, |base|))
            == Parse(js, num, Inside(Object, base, start, done + [NewKey(k, pos)], n + 1, next, |base|))
  {
    hide Parse, CharsSource, Bump, AllValid, At;
    var p := Inside(Object, base, start, done, n, pos, |base|);
    ParseQuoted(js, num, p, k.chars);
    Counted(Object, base, start, done, n);
    var bumped := base + [Token(Object, start, -1, n + 1)];
    assert bumped + done + [NewKey(k, pos)] == bumped + (done + [NewKey(k, pos)]);
  }

  lemma Colon(js: string, num: nat, p: Parser)
    requires Linked(p) && At(js, p.pos, ":")
    ensures Parse(js, num, p) == Parse(js, num, p.(pos := p.pos + 1, toksuper := |p.tokens| - 1))
  {
    assert js[p.pos] == ":"[0];
  }

  /** What may be the superior behind an entry: the container or the key of the value. */
  predicate Superior(base: seq<Token>, done: seq<Token>, toksuper: int) {
    toksuper == |base|
    || (|base| < toksuper <= |base| + |done| && done[toksuper - |base| - 1].kind == String)
  }

  /** The parts of the entry's text; its value ends where white space or a delimiter begins. */
  lemma PartsAt(js: string, e: Entry, pos: nat)
    requires Blank(e.after) && At(js, pos, EntrySource(e)) && Boundary(js, pos + |EntrySource(e)|)
    ensures var q := pos + |e.before|;
            var r := q + |KeySource(e.key)|;
            var at := r + |Source(e.value)|;
            && At(js, pos, e.before) && At(js, q, KeySource(e.key)) && At(js, r, Source(e.value))
            && Boundary(js, at) && At(js, at, e.after)
  {
    hide KeySource, Source, Boundary, Blank;
    var q := pos + |e.before|;
    var r := q + |KeySource(e.key)|;
    AtSplit(js, pos, e.before, KeySource(e.key) + (Source(e.value) + e.after));
    AtSplit(js, q, KeySource(e.key), Source(e.value) + e.after);
    AtSplit(js, r, Source(e.value), e.after);
    BlankIsBoundary(js, r + |Source(e.value)|, e.after);
  }

  lemma {:induction false} ParseEntry(js: string, num: nat, kind: Kind, base: seq<Token>, start: nat, done: seq<Token>,
                                      n: nat, pos: nat, e: Entry) returns (toksuper: int)
    requires EntryValid(kind, e) && AllClosed(done) && At(js, pos, EntrySource(e))
    requires Boundary(js, pos + |EntrySource(e)|) && |base| + 1 + |done| + |EntryTokens(e, pos)| <= num
    ensures var done' := done + EntryTokens(e, pos);
            && Superior(base, done', toksuper) && AllClosed(done')
            && Parse(js, num, Inside(kind, base, start, done, n, pos, |base|))
               == Parse(js, num, Inside(kind, base, start, done', n + 1, pos + |EntrySource(e)|, toksuper))
    decreases e, 2, 0
  {
    hide Parse, LastOpen, Boundary, At, Blank, AllValid, WellFormed, EntryTokens, KeySource, Source;
    var q := pos + |e.before|;
    var at := q + |KeySource(e.key)| + |Source(e.value)|;
    PartsAt(js, e, pos);
    EntryTokensAreClosed(e, pos);
    ParseBlank(js, num, Inside(kind, base, start, done, n, pos, |base|), e.before);
    toksuper := ParseBehindKey(js, num, kind, base, start, done, n, q, e);
    var done' := done + EntryTokens(e, pos);
    ParseBlank(js, num, Inside(kind, base, start, done', n + 1, at, toksuper), e.after);
  }

  lemma {:induction false} ParseBehindKey(js: string, num: nat, kind: Kind, base: seq<Token>, start: nat,
                                          done: seq<Token>, n: nat, q: nat, e: Entry) returns (toksuper: int)
    requires EntryValid(kind, e) && AllClosed(done) && q >= |e.before| && At(js, q, KeySource(e.key))
    requires var r := q + |KeySource(e.key)|; At(js, r, Source(e.value)) && Boundary(js, r + |Source(e.value)|)
    requires |base| + 1 + |done| + |EntryTokens(e, q - |e.before|)| <= num
    ensures var done' := done + EntryTokens(e, q - |e.before|);
            var next := q + |KeySource(e.key)| + |Source(e.value)|;
            && Superior(base, done', toksuper)
            && Parse(js, num, Inside(kind, base, start, done, n, q, |base|))
               == Parse(js, num, Inside(kind, base, start, done', n + 1, next, toksuper))
    decreases e, 1, 0
  {
    hide Parse, Tokens, Source, LastOpen, Boundary, At, Bump, WellFormed, AllValid, Blank;
    var r := q + |KeySource(e.key)|;
    if e.key.Some? {
      var key, K := NewKey(e.key.value, q), |base| + 1 + |done|;
      ParseKey(js, num, base, start, done, n, q, e.key.value);
      ParseJson(js, num, Inside(kind, base, start, done + [key], n + 1, r, K), e.value);
      AfterMember(kind, base, start, done, key, n + 1, r, e.value);
      toksuper := if e.value.Container? then |base| else K;
      assert EntryTokens(e, q - |e.before|) == [key.(size := 1)] + Tokens(e.value, r);
    } else {
      ParseJson(js, num, Inside(kind, base, start, done, n, q, |base|), e.value);
      AfterItem(kind, base, start, done, n, r, e.value);
      toksuper := |base|;
      assert EntryTokens(e, q - |e.before|) == [] + Tokens(e.value, r) == Tokens(e.value, r);
    }
  }

  lemma AfterMember(kind: Kind, base: seq<Token>, start: nat, done: seq<Token>, key: Token, n: nat, r: nat, j: Json)
    requires AllClosed(done) && key.kind == String && !Open(key) && key.size == 0
    ensures var K := |base| + 1 + |done|;
            var done' := done + ([key.(size := 1)] + Tokens(j, r));
            After(Inside(kind, base, start, done + [key], n, r, K), j)
            == Inside(kind, base, start, done', n, r + |Source(j)|, if j.Container? then |base| else K)
  {
    hide LastOpen, Source, Tokens;
    InnermostOpen(kind, base, start, done + [key], n);
    var K, front := |base| + 1 + |done|, base + [Token(kind, start, -1, n)];
    assert front + (done + [key]) == (front + done) + [key];
    assert Bump(front + (done + [key]), K) == (front + done) + [key.(size := 1)];
    assert ((front + done) + [key.(size := 1)]) + Tokens(j, r) == front + (done + ([key.(size := 1)] + Tokens(j, r)));
  }

  lemma AfterItem(kind: Kind, base: seq<Token>, start: nat, done: seq<Token>, n: nat, r: nat, j: Json)
    requires AllClosed(done)
    ensures After(Inside(kind, base, start, done, n, r, |base|), j)
            == Inside(kind, base, start, done + Tokens(j, r), n + 1, r + |Source(j)|, |base|)
  {
    hide LastOpen, Source, Tokens, Bump;
    InnermostOpen(kind, base, start, done, n);
    Counted(kind, base, start, done, n);
    var front := base + [Token(kind, start, -1, n + 1)];
    assert (front + done) + Tokens(j, r) == front + (done + Tokens(j, r));
  }

  lemma {:induction false} ParseEntries(js: string, num: nat, base: seq<Token>, start: nat, done: seq<Token>, j: Json,
                                        i: nat, pos: nat, toksuper: int)
    requires j.Container? && WellFormed(j) && i <= |j.entries| && AllClosed(done)
    requires At(js, pos, EntriesSource(j, i) + Closing(j.kind))
    requires if i < |j.entries| then toksuper == |base| else Superior(base, done, toksuper)
    requires |base| + 1 + |done| + |EntriesTokens(j, i, pos)| <= num
    ensures var end := pos + |EntriesSource(j, i)| + 1;
            Parse(js, num, Inside(j.kind, base, start, done, i, pos, toksuper))
            == Parse(js, num, Parser(end, base + [Token(j.kind, start, end, |j.entries|)]
                                          + (done + EntriesTokens(j, i, pos)), LastOpen(base, |base|)))
    decreases j, 0, |j.entries| - i
  {
    hide Parse, LastOpen, AllClosed, EntryTokens, EntrySource, Boundary, EntryValid, At, Blank;
    AtSplit(js, pos, EntriesSource(j, i), Closing(j.kind));
    if i == |j.entries| {
      ParseBlank(js, num, Inside(j.kind, base, start, done, i, pos, toksuper), j.inner);
      CloseContainer(js, num, j.kind, base, start, done, i, pos + |j.inner|, toksuper);
      var list := base + [Token(j.kind, start, pos + |j.inner| + 1, i)];
      assert list + done == list + (done + EntriesTokens(j, i, pos));
    } else {
      var e := j.entries[i];
      var next := pos + |EntrySource(e)|;
      EntryAt(js, j, i, pos);
      var sup := ParseEntry(js, num, j.kind, base, start, done, i, pos, e);
      var done' := done + EntryTokens(e, pos);
      if i + 1 < |j.entries| {
        Separate(js, num, j.kind, base, start, done', i + 1, next, sup);
        ParseEntries(js, num, base, start, done', j, i + 1, next + 1, |base|);
        assert done' + EntriesTokens(j, i + 1, next + 1) == done + EntriesTokens(j, i, pos);
      } else {
        ParseEntries(js, num, base, start, done', j, i + 1, next, sup);
        assert done' + EntriesTokens(j, i + 1, next) == done + EntriesTokens(j, i, pos);
      }
    }
  }

  /** The entry's text, what ends it, and the rest. */
  lemma EntryAt(js: string, j: Json, i: nat, pos: nat)
    requires j.Container? && WellFormed(j) && i < |j.entries|
    requires At(js, pos, EntriesSource(j, i) + Closing(j.kind))
    ensures var next := pos + |EntrySource(j.entries[i])|;
            && EntryValid(j.kind, j.entries[i])
            && At(js, pos, EntrySource(j.entries[i])) && Boundary(js, next)
            && At(js, next, Comma(j, i))
            && At(js, next + |Comma(j, i)|, EntriesSource(j, i + 1) + Closing(j.kind))
  {
    hide EntrySource, EntriesTokens;
    var e, rest := j.entries[i], EntriesSource(j, i + 1) + Closing(j.kind);
    var next := pos + |EntrySource(e)|;
    assert e in j.entries;
    assert EntriesSource(j, i) + Closing(j.kind) == EntrySource(e) + (Comma(j, i) + rest);
    AtSplit(js, pos, EntrySource(e), Comma(j, i) + rest);
    AtSplit(js, next, Comma(j, i), rest);
    Ended(js, j, i, next);
  }

  /** A comma, white space or the closing bracket ends an entry. */
  lemma Ended(js: string, j: Json, i: nat, next: nat)
    requires j.Container? && WellFormed(j) && i < |j.entries|
    requires At(js, next, Comma(j, i))
    requires At(js, next + |Comma(j, i)|, EntriesSource(j, i + 1) + Closing(j.kind))
    ensures Boundary(js, next)
  {
    hide EntrySource;
    if Comma(j, i) == "," {
      assert js[next] == ","[0];
    } else {
      AtSplit(js, next, j.inner, Closing(j.kind));
      assert js[next + |j.inner|] == Closing(j.kind)[0];
      BlankIsBoundary(js, next, j.inner);
    }
  }

  /** Tokenising a value adds exactly its tokens, whatever stands around it. */
  lemma {:induction false} ParseJson(js: string, num: nat, p: Parser, j: Json)
    requires WellFormed(j) && Linked(p) && At(js, p.pos, Source(j)) && Boundary(js, p.pos + |Source(j)|)
    requires |p.tokens| + |Tokens(j, p.pos)| <= num
    ensures Parse(js, num, p) == Parse(js, num, After(p, j))
    decreases j, 1, 0
  {
    hide Parse, LastOpen, EntriesTokens, EntriesSource, At, Bump;
    match j
    case Plainly(_) => ParsePlainly(js, num, p, j);
    case Quoted(chars) => ParseQuoted(js, num, p, chars);
    case Container(kind, _, _) =>
      AtSplit(js, p.pos, Opening(kind), EntriesSource(j, 0) + Closing(kind));
      OpenContainer(js, num, p, kind);
      var base, rest := Bump(p.tokens, p.toksuper), EntriesTokens(j, 0, p.pos + 1);
      ParseEntries(js, num, base, p.pos, [], j, 0, p.pos + 1, |base|);
      var list := [Token(kind, p.pos, p.pos + |Source(j)|, |j.entries|)];
      assert base + list + ([] + rest) == base + (list + rest);
  }

  /** The whole text of a value, with white space around it, is tokenised into exactly the value's tokens, given
      room for them. Whatever stands behind a NUL is not looked at. */
  lemma JsonIsTokenised(lead: string, j: Json, trail: string, behind: string, num: nat)
    requires WellFormed(j) && Blank(lead) && Blank(trail) && (behind == "" || behind[0] == '\0')
    requires |Tokens(j, |lead|)| <= num
    ensures Parse(lead + Source(j) + trail + behind, num, Init)
            == Going(Parser(|lead + Source(j) + trail|, Tokens(j, |lead|), -1))
  {
    hide Parse, Source, Tokens, LastOpen, WellFormed, Blank, At;
    var js, text := lead + Source(j) + trail + behind, lead + Source(j);
    var at := |text|;
    TextAt(lead, Source(j), trail, behind);
    ParseBlank(js, num, Init, lead);
    BlankIsBoundary(js, at, trail);
    var p := Init.(pos := |lead|);
    ParseJson(js, num, p, j);
    TokensAreClosed(j, |lead|);
    assert [] + Tokens(j, |lead|) == Tokens(j, |lead|);
    LastOpenBehind([], Tokens(j, |lead|), |Tokens(j, |lead|)|);
    NoneOpen();
    ParseBlank(js, num, After(p, j), trail);
    EndsHere(js, num, Parser(at + |trail|, Tokens(j, |lead|), -1));
  }

  lemma TextAt(lead: string, text: string, trail: string, behind: string)
    requires behind == "" || behind[0] == '\0'
    ensures var js := lead + text + trail + behind;
            && At(js, 0, lead) && At(js, |lead|, text) && At(js, |lead + text|, trail)
            && Ends(js, |lead + text| + |trail|)
  {
    var js := lead + text + trail + behind;
    assert behind != "" ==> js[|lead + text| + |trail|] == behind[0];
  }

  lemma NoneOpen()
    ensures LastOpen([], 0) == -1
  {
  }

  lemma EndsHere(js: string, num: nat, p: Parser)
    requires p.pos <= |js| && Ends(js, p.pos) && LastOpen(p.tokens, |p.tokens|) < 0 && p.toksuper < |p.tokens|
    ensures Parse(js, num, p) == Going(p)
  {
  }
}
