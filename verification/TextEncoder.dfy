/** ThingSetTextEncoder on lists of integers: every item is followed by a separator, and the end of a list strips the
    last one. */
module TextEncoder {
  import opened TextValue

  /** `text` without a trailing separator. */
  function Stripped(text: string): string {
    if text != "" && text[|text| - 1] == ',' then text[..|text| - 1] else text
  }

  /** What is left in the buffer of a text that filled it to the last byte: snprintf ends it with a NUL. */
  function CutOff(text: string): string
    requires text != ""
  {
    text[..|text| - 1] + ['\0']
  }

  class Encoder {
    const buffer: array<char>
    var position: nat
    /** An 8-bit counter. */
    var depth: nat

    ghost predicate Valid()
      reads this
    {
      position <= buffer.Length && depth < 256
    }

    ghost function Written(): string
      requires Valid()
      reads this, buffer
    {
      buffer[..position]
    }

    constructor (buffer: array<char>)
      ensures Valid() && Written() == "" && this.buffer == buffer && depth == 0
    {
      this.buffer, position, depth := buffer, 0, 0;
    }

    method Append(c: char) returns (ok: bool)
      requires Valid()
      modifies this`position, buffer
      ensures Valid() && ok == (old(position) < buffer.Length)
      ensures Written() == old(Written()) + if ok then [c] else []
    {
      if position >= buffer.Length {
        return false;
      }
      buffer[position] := c;
      position := position + 1;
      return true;
    }

    /** appendFormat: the check leaves no room for the NUL that snprintf writes. */
    method AppendFormat(text: string) returns (ok: bool)
      requires Valid() && text != ""
      modifies this`position, buffer
      ensures Valid() && ok == (old(position) + |text| <= buffer.Length)
      ensures !ok ==> Written() == old(Written())
      ensures ok && position < buffer.Length ==> Written() == old(Written()) + text && buffer[position] == '\0'
      ensures ok && position == buffer.Length ==> Written() == old(Written()) + CutOff(text)
    {
      if buffer.Length < position + |text| {
        return false;
      }
      var start := position;
      var copied := if |text| <= buffer.Length - start - 1 then |text| else buffer.Length - start - 1;
      for i := 0 to copied
        invariant buffer[..start + i] == old(Written()) + text[..i]
      {
        buffer[start + i] := text[i];
      }
      buffer[start + copied] := '\0';
      assert buffer[..start + copied] == old(Written()) + text[..copied];
      assert text[..|text|] == text;
      position := start + |text|;
      return true;
    }

    method EncodeListStart() returns (ok: bool)
      requires Valid()
      modifies this, buffer
      ensures Valid() && depth == (old(depth) + 1) % 256 && ok == (old(position) < buffer.Length)
      ensures Written() == old(Written()) + if ok then "[" else ""
    {
      depth := (depth + 1) % 256;
      ok := Append('[');
    }

    method EncodeListSeparator() returns (ok: bool)
      requires Valid()
      modifies this`position, buffer
      ensures Valid() && ok == (old(position) < buffer.Length)
      ensures Written() == old(Written()) + if ok then "," else ""
    {
      ok := Append(',');
    }

    method EncodeListEnd() returns (ok: bool)
      requires Valid()
      modifies this, buffer
      ensures Valid() && depth == (old(depth) + 255) % 256
      ensures ok == (|Stripped(old(Written()))| < buffer.Length)
      ensures Written() == Stripped(old(Written())) + if ok then "]" else ""
    {
      depth := (depth + 255) % 256;
      if position > 0 && buffer[position - 1] == ',' {
        position := position - 1;
      }
      ok := Append(']');
    }

    /** The number of items is exact whatever the options, as array abbreviation is off. */
    method Encode(v: Value) returns (ok: bool)
      requires Valid()
      modifies this, buffer
      ensures Valid()
      ensures ok <==> old(position) + |Text(v)| <= buffer.Length
      ensures ok ==> depth == old(depth) && position == old(position) + |Text(v)|
      ensures ok ==> (Written() == old(Written()) + Text(v) <==> v.List? || position < buffer.Length)
      ensures ok && v.Int? ==>
                if position < buffer.Length then buffer[position] == '\0'
                else Written() == old(Written()) + CutOff(Text(v))
      decreases v, 1
    {
      match v
      case Int(_, n) =>
        ok := AppendFormat(Number(n));
        if ok && position == buffer.Length {
          CutOffShows(old(Written()), Number(n));
        }
      case List(items) =>
        ok := EncodeArray(v);
    }

    /** An element and the separator behind it. */
    method EncodeElement(item: Value) returns (ok: bool)
      requires Valid()
      modifies this, buffer
      ensures Valid()
      ensures ok <==> old(position) + |Text(item)| + 1 <= buffer.Length
      ensures ok ==> depth == old(depth) && Written() == old(Written()) + Text(item) + ","
      decreases item, 2
    {
      ok := Encode(item);
      if ok {
        ok := EncodeListSeparator();
      }
    }

    /** The array template: the loop goes on after a failure. */
    method EncodeArray(v: Value) returns (ok: bool)
      requires Valid() && v.List?
      modifies this, buffer
      ensures Valid()
      ensures ok <==> old(position) + |Text(v)| <= buffer.Length
      ensures ok ==> depth == old(depth) && Written() == old(Written()) + Text(v)
      decreases v, 0
    {
      ghost var before := Written();
      hide Progress, Text, Rest, Stripped;
      var result := EncodeListStart();
      NoItem(before, v);
      for i := 0 to |v.items|
        invariant Valid()
        invariant !result ==> |before| + |Text(v)| > buffer.Length
        invariant result ==> depth == (old(depth) + 1) % 256 && Progress(before, Written(), v, i)
      {
        if result {
          OneItem(before, Written(), v, i);
        }
        var ok := EncodeElement(v.items[i]);
        result := result && ok;
      }
      if !result {
        return false;
      }
      ghost var written := Written();
      AllItems(before, written, v);
      ok := EncodeListEnd();
      assert Written() == Stripped(written) + if ok then "]" else "";
    }
  }

  /** `written` is `before` and the text of v up to item i, with a separator behind each item. */
  ghost predicate Progress(before: string, written: string, v: Value, i: nat)
    requires v.List? && i <= |v.items|
  {
    if i == 0 || i < |v.items| then
      before + Text(v) == written + Rest(v, i) + "]" && written != "" && (i == 0 ==> written[|written| - 1] == '[')
    else written != "" && written[|written| - 1] == ',' && before + Text(v) == written[..|written| - 1] + "]"
  }

  lemma NoItem(before: string, v: Value)
    requires v.List?
    ensures |Text(v)| > 0 && Progress(before, before + "[", v, 0)
  {
  }

  lemma OneItem(before: string, written: string, v: Value, i: nat)
    requires v.List? && i < |v.items| && Progress(before, written, v, i)
    ensures |written| + |Text(v.items[i])| + 1 <= |before| + |Text(v)|
    ensures Progress(before, written + Text(v.items[i]) + ",", v, i + 1)
  {
    var item := Text(v.items[i]);
    if i + 1 < |v.items| {
      assert written + Rest(v, i) + "]" == written + item + "," + Rest(v, i + 1) + "]";
    } else {
      assert (written + item + ",")[..|written + item|] == written + item;
    }
  }

  lemma AllItems(before: string, written: string, v: Value)
    requires v.List? && Progress(before, written, v, |v.items|)
    ensures Stripped(written) + "]" == before + Text(v)
    ensures |Stripped(written)| + 1 == |before| + |Text(v)|
  {
  }

  lemma CutOffShows(before: string, text: string)
    requires text != "" && IsDigit(text[|text| - 1])
    ensures before + CutOff(text) != before + text
  {
    assert (before + text)[|before| + |text| - 1] != (before + CutOff(text))[|before| + |text| - 1];
  }
}
