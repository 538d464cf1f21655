/** jsmn_parse as it is written: the parser's fields and the caller's token array change in place. */
module JsmnParser {
  import opened Jsmn
  import opened Wrappers

  class JsmnParser {
    var pos: nat
    var toknext: nat
    var toksuper: int

    ghost predicate Fits(tokens: array<Token>)
      reads this
    {
      toknext <= tokens.Length && -1 <= toksuper < toknext
    }

    /** The part of the state that matters: tokens that are not allocated yet hold anything. */
    ghost function View(tokens: array<Token>): Parser
      requires Fits(tokens)
      reads this, tokens
    {
      Parser(pos, tokens[..toknext], toksuper)
    }

    /** jsmn_init */
    constructor ()
      ensures pos == 0 && toknext == 0 && toksuper == -1
    {
      pos, toknext, toksuper := 0, 0, -1;
    }

    /** jsmn_alloc_token and jsmn_fill_token. */
    method AllocToken(tokens: array<Token>, t: Token) returns (ok: bool)
      requires Fits(tokens)
      modifies this`toknext, tokens
      ensures Fits(tokens) && ok == (old(toknext) < tokens.Length)
      ensures tokens[..toknext] == old(tokens[..toknext]) + if ok then [t] else []
    {
      if toknext >= tokens.Length {
        return false;
      }
      tokens[toknext] := t;
      toknext := toknext + 1;
      return true;
    }

    /** One more child for the superior token. */
    method BumpSuper(tokens: array<Token>)
      requires Fits(tokens)
      modifies tokens
      ensures tokens[..toknext] == Bump(old(tokens[..toknext]), toksuper)
    {
      if toksuper != -1 {
        tokens[toksuper] := tokens[toksuper].(size := tokens[toksuper].size + 1);
      }
    }

    /** jsmn_parse_primitive leaves the position at the last character, or where it was on failure. */
    method ParsePrimitive(js: string, tokens: array<Token>) returns (r: Option<Failure>)
      requires Fits(tokens) && !Ends(js, pos) && !Delimiter(js[pos])
      modifies this`pos, this`toknext, tokens
      ensures Fits(tokens)
      ensures var scan := ScanPrimitive(js, old(pos));
              match r
              case Some(Inval) => scan.Invalid? && View(tokens) == old(View(tokens))
              case Some(NoMem) => scan.Found? && old(toknext) == tokens.Length && View(tokens) == old(View(tokens))
              case Some(Part) => false
              case None =>
                && scan.Found? && old(pos) < scan.at == pos + 1 && old(toknext) < tokens.Length
                && tokens[..toknext] == old(tokens[..toknext]) + [Token(Primitive, old(pos), scan.at, 0)]
    {
      var start := pos;
      while !Ends(js, pos) && !Delimiter(js[pos])
        invariant start <= pos <= |js| && Fits(tokens)
        invariant pos == start ==> !Ends(js, pos) && !Delimiter(js[pos])
        invariant ScanPrimitive(js, start) == ScanPrimitive(js, pos)
        invariant tokens[..] == old(tokens[..]) && toknext == old(toknext)
        decreases |js| - pos
      {
        if !Printable(js[pos]) {
          pos := start;
          return Some(Inval);
        }
        pos := pos + 1;
      }
      var ok := AllocToken(tokens, Token(Primitive, start, pos, 0));
      if !ok {
        pos := start;
        return Some(NoMem);
      }
      pos := pos - 1;
      return None;
    }

    /** Up to four hex digits. */
    method ParseHex(js: string) returns (ok: bool)
      requires pos <= |js|
      modifies this`pos
      ensures ok == ScanHex(js, old(pos), 4).Found?
      ensures ok ==> pos == ScanHex(js, old(pos), 4).at
    {
      var i := 0;
      while i < 4 && !Ends(js, pos)
        invariant i <= 4 && pos <= |js|
        invariant ScanHex(js, old(pos), 4) == ScanHex(js, pos, 4 - i)
      {
        if !Hex(js[pos]) {
          return false;
        }
        pos := pos + 1;
        i := i + 1;
      }
      return true;
    }

    /** The search for the closing quote, from behind the opening one. */
    method FindQuote(js: string) returns (r: Option<Failure>)
      requires pos <= |js|
      modifies this`pos
      ensures var scan := ScanString(js, old(pos));
              match r
              case Some(Inval) => scan.Invalid?
              case Some(Part) => scan.Missing?
              case Some(NoMem) => false
              case None => scan == Found(pos)
    {
      while !Ends(js, pos)
        invariant old(pos) <= pos <= |js|
        invariant ScanString(js, old(pos)) == ScanString(js, pos)
        decreases |js| - pos
      {
        if js[pos] == '"' {
          return None;
        }
        if js[pos] == '\\' && pos + 1 < |js| {
          pos := pos + 1;
          if js[pos] == 'u' {
            pos := pos + 1;
            var ok := ParseHex(js);
            if !ok {
              return Some(Inval);
            }
            pos := pos - 1;
          } else if !Escape(js[pos]) {
            return Some(Inval);
          }
        }
        pos := pos + 1;
      }
      return Some(Part);
    }

    /** jsmn_parse_string leaves the position at the closing quote. */
    method ParseString(js: string, tokens: array<Token>) returns (r: Option<Failure>)
      requires Fits(tokens) && pos < |js|
      modifies this`pos, this`toknext, tokens
      ensures Fits(tokens)
      ensures var scan := ScanString(js, old(pos) + 1);
              match r
              case Some(Inval) => scan.Invalid? && View(tokens) == old(View(tokens))
              case Some(Part) => scan.Missing? && View(tokens) == old(View(tokens))
              case Some(NoMem) => scan.Found? && old(toknext) == tokens.Length && View(tokens) == old(View(tokens))
              case None =>
                && scan == Found(pos) && old(toknext) < tokens.Length
                && tokens[..toknext] == old(tokens[..toknext]) + [Token(String, old(pos) + 1, pos, 0)]
    {
      var start := pos;
      pos := pos + 1;
      r := FindQuote(js);
      if r == None {
        var ok := AllocToken(tokens, Token(String, start + 1, pos, 0));
        if !ok {
          r := Some(NoMem);
        }
      }
      if r != None {
        pos := start;
      }
    }

    /** `{` or `[` */
    method OpenContainer(kind: Kind, tokens: array<Token>) returns (r: Option<Failure>)
      requires Fits(tokens)
      modifies this`toknext, this`toksuper, tokens
      ensures Fits(tokens)
      ensures r == if old(toknext) == tokens.Length then Some(NoMem) else None
      ensures r != None ==> View(tokens) == old(View(tokens))
      ensures r == None ==> View(tokens).(pos := pos + 1) == OpenToken(old(View(tokens)), kind)
    {
      ghost var before := tokens[..toknext];
      var start := pos;
      var ok := AllocToken(tokens, Token(kind, -1, -1, 0));
      if !ok {
        return Some(NoMem);
      }
      BumpSuper(tokens);
      tokens[toknext - 1] := tokens[toknext - 1].(start := start);
      toksuper := toknext - 1;
      assert tokens[..toknext] == Bump(before, old(toksuper)) + [Token(kind, start, -1, 0)];
      return None;
    }

    /** The innermost open token, counting down from `from`. */
    method FindOpen(tokens: array<Token>, from: int) returns (i: int)
      requires -1 <= from < tokens.Length
      ensures i == LastOpen(tokens[..], from + 1)
    {
      i := from;
      while i >= 0
        invariant -1 <= i <= from
        invariant LastOpen(tokens[..], from + 1) == LastOpen(tokens[..], i + 1)
      {
        if Open(tokens[i]) {
          return;
        }
        i := i - 1;
      }
    }

    /** `}` or `]`: the second search goes on where the first one stopped. */
    method CloseContainer(kind: Kind, tokens: array<Token>) returns (r: Option<Failure>)
      requires Fits(tokens)
      modifies this`toksuper, tokens
      ensures Fits(tokens)
      ensures match CloseToken(old(View(tokens)), kind)
              case Stopped(f, p) => r == Some(f) && View(tokens) == p
              case Going(p) => r == None && View(tokens).(pos := pos + 1) == p
    {
      var i := FindOpen(tokens, toknext - 1);
      LastOpenOfPrefix(tokens[..], toknext, toknext);
      if i < 0 || tokens[i].kind != kind {
        return Some(Inval);
      }
      toksuper := -1;
      tokens[i] := tokens[i].(end := pos + 1);
      var outer := FindOpen(tokens, i);
      LastOpenOfPrefix(tokens[..], toknext, i + 1);
      if outer >= 0 {
        toksuper := outer;
      }
      assert tokens[..toknext] == old(tokens[..toknext])[i := tokens[i]];
      return None;
    }

    /** `,` after a key's value: back to the innermost open container. */
    method Comma(tokens: array<Token>)
      requires Fits(tokens) && Sane(View(tokens))
      modifies this`toksuper
      ensures Fits(tokens) && toksuper == AfterComma(old(View(tokens)))
    {
      if toksuper != -1 && tokens[toksuper].kind != Array && tokens[toksuper].kind != Object {
        var i := toknext - 1;
        while i >= 0
          invariant -1 <= i < toknext && toksuper == old(toksuper)
          invariant LastOpen(tokens[..toknext], toknext) == LastOpen(tokens[..toknext], i + 1)
        {
          if tokens[i].kind == Array || tokens[i].kind == Object {
            if Open(tokens[i]) {
              toksuper := i;
              break;
            }
          }
          assert tokens[i] in tokens[..toknext];
          i := i - 1;
        }
      }
    }

    /** One round of the main loop, its `pos++` included. It counts values on its own, before or after there is room for
        them, and unless it fails it has counted the token that was allocated. */
    method Round(js: string, tokens: array<Token>, counted: nat) returns (r: Option<Failure>, count: nat)
      requires Fits(tokens) && Sane(View(tokens)) && !Ends(js, pos)
      modifies this, tokens
      ensures Fits(tokens)
      ensures match Step(js, tokens.Length, old(View(tokens)))
              case Stopped(f, p) => r == Some(f) && View(tokens) == p
              case Going(p) => r == None && View(tokens) == p
      ensures r == None ==> count - counted == toknext - old(toknext)
    {
      hide LastOpen, ScanString, ScanPrimitive, ScanHex, AfterComma, CloseToken;
      var c := js[pos];
      r, count := None, counted;
      if c == '{' || c == '[' {
        count := count + 1;
        r := OpenContainer(if c == '{' then Object else Array, tokens);
      } else if c == '}' || c == ']' {
        r := CloseContainer(if c == '}' then Object else Array, tokens);
      } else if c == '"' {
        r := ParseString(js, tokens);
        if r == None {
          count := count + 1;
          Bumped(old(View(tokens)), tokens);
        }
      } else if Space(c) {
      } else if c == ':' {
        toksuper := toknext - 1;
      } else if c == ',' {
        Comma(tokens);
      } else {
        r := ParsePrimitive(js, tokens);
        if r == None {
          count := count + 1;
          Bumped(old(View(tokens)), tokens);
        }
      }
      if r == None {
        pos := pos + 1;
      }
    }

    /** The superior of the token just added has one more child. */
    method Bumped(ghost p: Parser, tokens: array<Token>)
      requires Fits(tokens) && toksuper == p.toksuper && toknext == |p.tokens| + 1 && toksuper < |p.tokens|
      requires tokens[..toknext - 1] == p.tokens
      modifies tokens
      ensures tokens[..toknext] == Bump(p.tokens, p.toksuper) + [old(tokens[toknext - 1])]
    {
      ghost var t := tokens[toknext - 1];
      assert tokens[..toknext] == p.tokens + [t];
      BumpSuper(tokens);
      assert Bump(p.tokens + [t], p.toksuper) == Bump(p.tokens, p.toksuper) + [t];
    }

    /** jsmn_parse: the count returned is the number of tokens the array then holds, whether parsing begins or goes on
        after it had run out of room. */
    method Parse(js: string, tokens: array<Token>) returns (r: Option<Failure>, count: nat)
      requires Fits(tokens) && Sane(View(tokens)) && pos <= |js|
      modifies this, tokens
      ensures Fits(tokens) && Sane(View(tokens))
      ensures match Jsmn.Parse(js, tokens.Length, old(View(tokens)))
              case Stopped(f, p) => r == Some(f) && View(tokens) == p
              case Going(p) => r == None && View(tokens) == p && count == |p.tokens|
    {
      hide Step, LastOpen, Sane;
      count := toknext;
      while !Ends(js, pos)
        invariant Fits(tokens) && Sane(View(tokens)) && pos <= |js| && count == toknext
        invariant Jsmn.Parse(js, tokens.Length, View(tokens)) == Jsmn.Parse(js, tokens.Length, old(View(tokens)))
        decreases |js| - pos
      {
        StepStaysSane(js, tokens.Length, View(tokens));
        r, count := Round(js, tokens, count);
        if r != None {
          return;
        }
      }
      var i := FindOpen(tokens, toknext - 1);
      LastOpenOfPrefix(tokens[..], toknext, toknext);
      if i >= 0 {
        return Some(Part), count;
      }
      return None, count;
    }
  }

  lemma {:induction false} LastOpenOfPrefix(ts: seq<Token>, m: nat, n: nat)
    requires n <= m <= |ts|
    ensures LastOpen(ts[..m], n) == LastOpen(ts, n)
  {
    if n > 0 {
      LastOpenOfPrefix(ts, m, n - 1);
    }
  }
}
