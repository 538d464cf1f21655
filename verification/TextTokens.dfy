/** What the tokeniser makes of the text of a value. */
module TextTokens {
  import opened Jsmn
  import opened JsonTokens
  import opened TextValue
  import opened Wrappers

  /** The tokens of v when its text stands at position p. */
  function TokensOf(v: Value, p: nat): (r: seq<Token>)
    ensures |r| > 0
    decreases v, 1, 0
  {
    match v
    case Int(_, n) => [Token(Primitive, p, p + |Number(n)|, 0)]
    case List(items) => [Token(Array, p, p + |Text(v)|, |items|)] + RestTokens(v, 0, p + 1)
  }

  /** The tokens of the items from `i` on, the first of which stands at p. */
  function RestTokens(v: Value, i: nat, p: nat): seq<Token>
    requires v.List? && i <= |v.items|
    decreases v, 0, |v.items| - i
  {
    if i == |v.items| then []
    else TokensOf(v.items[i], p) + RestTokens(v, i + 1, p + |Text(v.items[i])| + 1)
  }

  /** The item's text, what ends it, and the rest behind the comma. */
  lemma ItemAt(js: string, v: Value, i: nat, pos: nat)
    requires v.List? && i < |v.items| && At(js, pos, Rest(v, i) + "]")
    ensures var next := pos + |Text(v.items[i])|;
            && At(js, pos, Text(v.items[i])) && next < |js|
            && (i + 1 == |v.items| ==> js[next] == ']')
            && (i + 1 < |v.items| ==> js[next] == ',' && At(js, next + 1, Rest(v, i + 1) + "]"))
  {
    var item := Text(v.items[i]);
    if i + 1 == |v.items| {
      AtSplit(js, pos, item, "]");
      assert js[pos + |item|] == "]"[0];
    } else {
      var rest := Rest(v, i + 1) + "]";
      assert Rest(v, i) + "]" == item + ("," + rest);
      AtSplit(js, pos, item, "," + rest);
      AtSplit(js, pos + |item|, ",", rest);
      assert js[pos + |item|] == ","[0];
    }
  }

  // ----- values as JSON without white space

  function JsonOf(v: Value): Json {
    match v
    case Int(_, n) => Plainly(Number(n))
    case List(items) =>
      Container(Array, seq(|items|, i requires 0 <= i < |items| => Entry("", None, JsonOf(items[i]), "")), "")
  }

  lemma {:induction false} IsWellFormed(v: Value)
    ensures WellFormed(JsonOf(v))
  {
    var j := JsonOf(v);
    if v.Int? {
      forall c <- j.text ensures Printable(c) && !Delimiter(c) {
        assert IsDigit(c) || c == '-';
      }
    } else {
      forall i | 0 <= i < |v.items| ensures WellFormed(j.entries[i].value) {
        IsWellFormed(v.items[i]);
      }
    }
  }

  lemma {:induction false} SameText(v: Value)
    ensures Source(JsonOf(v)) == Text(v)
    decreases v, 1, 0
  {
    if v.List? {
      SameRest(v, 0);
    }
  }

  lemma {:induction false} SameRest(v: Value, i: nat)
    requires v.List? && i <= |v.items|
    ensures EntriesSource(JsonOf(v), i) == Rest(v, i)
    decreases v, 0, |v.items| - i
  {
    hide EntrySource, Text;
    if i < |v.items| {
      var item := Text(v.items[i]);
      EntryIsItem(v, i);
      SameRest(v, i + 1);
      assert i + 1 == |v.items| ==> item + ("" + "") == item;
      assert i + 1 < |v.items| ==> item + ("," + Rest(v, i + 1)) == item + "," + Rest(v, i + 1);
    }
  }

  lemma {:induction false} EntryIsItem(v: Value, i: nat)
    requires v.List? && i < |v.items|
    ensures EntrySource(JsonOf(v).entries[i]) == Text(v.items[i])
    decreases v, 0, 0
  {
    hide Source, Text;
    SameText(v.items[i]);
    assert "" + ("" + (Text(v.items[i]) + "")) == Text(v.items[i]);
  }

  lemma {:induction false} EntryHasTokens(v: Value, i: nat, p: nat)
    requires v.List? && i < |v.items|
    ensures EntryTokens(JsonOf(v).entries[i], p) == TokensOf(v.items[i], p)
    decreases v, 0, 0
  {
    hide Tokens, TokensOf;
    SameTokens(v.items[i], p);
    assert [] + TokensOf(v.items[i], p) == TokensOf(v.items[i], p);
  }

  lemma {:induction false} SameTokens(v: Value, p: nat)
    ensures Tokens(JsonOf(v), p) == TokensOf(v, p)
    decreases v, 1, 0
  {
    if v.List? {
      SameText(v);
      SameRestTokens(v, 0, p + 1);
    }
  }

  lemma {:induction false} SameRestTokens(v: Value, i: nat, p: nat)
    requires v.List? && i <= |v.items|
    ensures EntriesTokens(JsonOf(v), i, p) == RestTokens(v, i, p)
    decreases v, 0, |v.items| - i
  {
    hide EntrySource, EntryTokens, TokensOf, Text;
    if i < |v.items| {
      var next := p + |Text(v.items[i])| + |Comma(JsonOf(v), i)|;
      EntryIsItem(v, i);
      EntryHasTokens(v, i, p);
      SameRestTokens(v, i + 1, next);
      assert i + 1 == |v.items| || next == p + |Text(v.items[i])| + 1;
    }
  }

  /** The text of a value is tokenised into exactly the value's tokens, given room for them, in a buffer where NUL or
      nothing follows. */
  lemma BufferIsTokenised(v: Value, behind: string, num: nat)
    requires |TokensOf(v, 0)| <= num && (behind == "" || behind[0] == '\0')
    ensures Parse(Text(v) + behind, num, Init) == Going(Parser(|Text(v)|, TokensOf(v, 0), -1))
  {
    hide Parse, TokensOf, Tokens, Text, Source, WellFormed;
    IsWellFormed(v);
    SameText(v);
    SameTokens(v, 0);
    JsonIsTokenised("", JsonOf(v), "", behind, num);
    assert "" + Text(v) + "" == Text(v);
  }

  lemma TextIsTokenised(v: Value, num: nat)
    requires |TokensOf(v, 0)| <= num
    ensures Parse(Text(v), num, Init) == Going(Parser(|Text(v)|, TokensOf(v, 0), -1))
  {
    BufferIsTokenised(v, "", num);
    assert Text(v) + "" == Text(v);
  }
}
