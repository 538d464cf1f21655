/** A report from the encoder's items to the decoder's: framed, sent over a transport that may pad the last frame
    with zeros, queued and decoded again. */
module ReportRoundTrip {
  import opened Crc32
  import opened Framing
  import opened StreamingEncoder
  import opened StreamingDecoder

  /** A frame as it arrives: the last one of a report may have been padded to a size the bus can carry. */
  function Padded(payload: seq<Byte>, length: nat): (r: seq<Byte>)
    ensures payload <= r && |r| == if |payload| < length then length else |payload|
  {
    payload + seq(if |payload| < length then length - |payload| else 0, _ => 0)
  }

  predicate IsLast(f: Frame) { f.kind == Single || f.kind == Last }

  lemma NextJoined(items: seq<seq<Byte>>, i: nat, before: seq<Byte>)
    requires i < |items|
    ensures before + Join(items[..i + 1]) == before + Join(items[..i]) + items[i]
  {
    hide Join;
    JoinSnoc(items[..i], items[i]);
    assert items[..i + 1] == items[..i] + [items[i]];
    assert before + (Join(items[..i]) + items[i]) == before + Join(items[..i]) + items[i];
  }

  /** Items are encoded one after the other. */
  method EncodeItems(encoder: Encoder, items: seq<seq<Byte>>)
    requires encoder.Valid() && forall item <- items :: |item| <= encoder.DataSize()
    modifies encoder, encoder.buffer
    ensures encoder.Valid() && encoder.Stream() == old(encoder.Stream()) + Join(items)
  {
    ghost var before := encoder.Stream();
    assert Join(items[..0]) == [];
    hide Join, Encoder.Valid, Encoder.Stream;
    assert before + Join(items[..0]) == before;
    for i := 0 to |items|
      invariant encoder.Valid() && encoder.Stream() == before + Join(items[..i])
    {
      assert items[i] in items;
      var ok := encoder.Encode(items[i], true);
      NextJoined(items, i, before);
    }
    assert items[..|items|] == items;
  }

  method EncodeReport(size: nat, headerSize: nat, initial: seq<Byte>, items: seq<seq<Byte>>)
    returns (frames: seq<Frame>)
    requires headerSize < size && |initial| <= size - headerSize
    requires forall item <- items :: |item| <= size - headerSize
    ensures frames == Frames(initial + Join(items), size - headerSize, 0)
  {
    hide Join, Frames, Encoder.Valid, Encoder.Stream;
    var encoder := new Encoder(size, headerSize, initial);
    EncodeItems(encoder, items);
    var ok := encoder.Flush(true);
    frames := encoder.frames;
  }

  /** All frames but the last go into the decoder's queue. */
  method EnqueueFull(decoder: Decoder, frames: seq<Frame>)
    requires decoder.Collecting() && decoder.stream == [] && decoder.queue == []
    requires forall f <- frames :: |f.payload| == decoder.size && !IsLast(f)
    modifies decoder, decoder.buffer
    ensures decoder.Collecting() && decoder.stream == Flat(frames)
    ensures forall p <- decoder.queue :: |p| == decoder.size
  {
    assert Flat(frames[..0]) == [];
    for i := 0 to |frames|
      invariant decoder.Collecting() && decoder.stream == Flat(frames[..i])
      invariant forall p <- decoder.queue :: |p| == decoder.size
    {
      hide Flat, Decoder.Collecting, Decoder.Valid;
      assert frames[i] in frames;
      var done := decoder.Enqueue(frames[i].payload, IsLast(frames[i]));
      FlatSnoc(frames[..i], frames[i]);
      assert frames[..i + 1] == frames[..i] + [frames[i]];
    }
    assert frames[..|frames|] == frames;
  }

  /** All frames arrive in order, the last one padded. */
  method Receive(frames: seq<Frame>, size: nat, length: nat, ghost data: seq<Byte>) returns (decoder: Decoder)
    requires size > 0 && length <= size && data != [] && frames == Frames(data, size, 0)
    ensures fresh(decoder) && fresh(decoder.buffer) && decoder.Valid() && decoder.size == size
    ensures decoder.Consumed() == 1 && data <= decoder.stream
  {
    FramesAreFinished(data, size);
    FramesAreFlat(data, size, 0);
    var n := |frames| - 1;
    FlatSnoc(frames[..n], frames[n]);
    assert frames == frames[..n] + [frames[n]];
    assert n == 0 ==> Flat(frames[..n]) == [];
    hide Flat, Frames, Decoder.Valid;
    decoder := new Decoder(size);
    EnqueueFull(decoder, frames[..n]);
    var done := decoder.Enqueue(Padded(frames[n].payload, length), IsLast(frames[n]));
  }

  ghost function Lengths(items: seq<seq<Byte>>): seq<nat> {
    seq(|items|, i requires 0 <= i < |items| => |items[i]|)
  }

  method DecodeItem(decoder: Decoder, length: nat, ghost items: seq<seq<Byte>>, ghost i: nat, ghost data: seq<Byte>)
    returns (item: seq<Byte>)
    requires decoder.Valid() && i < |items| && data <= decoder.stream && length == |items[i]| <= decoder.size
    requires |data| == 1 + |Join(items)| && data[1..] == Join(items) && decoder.Consumed() == 1 + |Join(items[..i])|
    modifies decoder, decoder.buffer
    ensures decoder.Valid() && decoder.stream == old(decoder.stream)
    ensures decoder.Consumed() == 1 + |Join(items[..i + 1])| && item == items[i]
  {
    hide Join, Decoder.Valid, Decoder.Consumed;
    ItemInStream(items, i, data, decoder.stream);
    JoinSnoc(items[..i], items[i]);
    assert items[..i + 1] == items[..i] + [items[i]];
    item := decoder.Decode(length);
  }

  /** The decoder is asked for items of these lengths. */
  method DecodeItems(decoder: Decoder, lengths: seq<nat>, ghost items: seq<seq<Byte>>, ghost data: seq<Byte>)
    returns (decoded: seq<seq<Byte>>)
    requires decoder.Valid() && decoder.Consumed() == 1 && data <= decoder.stream
    requires |data| == 1 + |Join(items)| && data[1..] == Join(items)
    requires lengths == Lengths(items) && forall item <- items :: |item| <= decoder.size
    modifies decoder, decoder.buffer
    ensures decoded == items
  {
    decoded := [];
    assert Join(items[..0]) == [];
    for i := 0 to |lengths|
      invariant decoder.Valid() && data <= decoder.stream
      invariant decoder.Consumed() == 1 + |Join(items[..i])|
      invariant decoded == items[..i]
    {
      hide Join, Decoder.Valid, Decoder.Consumed;
      assert items[i] in items;
      var item := DecodeItem(decoder, lengths[i], items, i, data);
      decoded := decoded + [item];
    }
    assert items[..|items|] == items;
  }

  /** The receiving side, which knows the frames and the lengths it asks for: it reads back the items that the frames
      were made of, byte for byte and in order. */
  method ReadReport(frames: seq<Frame>, size: nat, length: nat, lengths: seq<nat>, ghost first: Byte,
                    ghost items: seq<seq<Byte>>) returns (decoded: seq<seq<Byte>>)
    requires 0 < size && length <= size && forall item <- items :: |item| <= size
    requires frames == Frames([first] + Join(items), size, 0) && lengths == Lengths(items)
    ensures decoded == items
  {
    hide Join, Frames, Decoder.Valid, Decoder.Consumed, Lengths;
    ghost var data := [first] + Join(items);
    var decoder := Receive(frames, size, length, data);
    decoded := DecodeItems(decoder, lengths, items, data);
  }

  /** Report round trip through a window of two frames: whatever the items, as long as each fits in one frame. */
  method RoundTrip(size: nat, first: Byte, items: seq<seq<Byte>>, length: nat) returns (decoded: seq<seq<Byte>>)
    requires 0 < size && length <= size && forall item <- items :: |item| <= size
    ensures decoded == items
  {
    var frames := EncodeReport(size, 0, [first], items);
    var lengths := seq(|items|, i requires 0 <= i < |items| => |items[i]|);
    hide Join, Frames;
    decoded := ReadReport(frames, size, length, lengths, first, items);
  }

  lemma {:induction false} JoinSplit(a: seq<seq<Byte>>, b: seq<seq<Byte>>)
    ensures Join(a + b) == Join(a) + Join(b)
  {
    if a == [] {
      assert a + b == b;
    } else {
      JoinSplit(a[1..], b);
      assert (a + b)[1..] == a[1..] + b;
    }
  }

  /** Item i stands behind the report type and the items before it. */
  lemma ItemInStream(items: seq<seq<Byte>>, i: nat, data: seq<Byte>, stream: seq<Byte>)
    requires i < |items| && |data| == 1 + |Join(items)| && data[1..] == Join(items) && data <= stream
    ensures var at := 1 + |Join(items[..i])|;
            at + |items[i]| <= |stream| && stream[at..at + |items[i]|] == items[i]
  {
    var before, after := Join(items[..i]), Join(items[i + 1..]);
    hide Join;
    JoinSplit(items[..i], items[i..]);
    JoinHead(items[i..]);
    assert items[..i] + items[i..] == items && items[i..][1..] == items[i + 1..];
    var at := 1 + |before|;
    assert data[1..] == before + (items[i] + after);
    SliceOfSlice(stream, 0, |data|, at, at + |items[i]|);
    SliceOfSlice(data, 1, |data|, |before|, |before| + |items[i]|);
    InMiddle(before, items[i], after);
  }

  lemma JoinHead(items: seq<seq<Byte>>)
    requires items != []
    ensures Join(items) == items[0] + Join(items[1..])
  {
  }

  lemma InMiddle(a: seq<Byte>, b: seq<Byte>, c: seq<Byte>)
    ensures (a + (b + c))[|a|..|a| + |b|] == b
  {
  }
}
