/** StreamingQueuingThingSetBinaryDecoder for transports without a frame header: a queue of received frames, read
    through a window of two frames that slides over their bytes. */
module StreamingDecoder {
  import opened Crc32
  import opened Framing

  function Join(payloads: seq<seq<Byte>>): seq<Byte> {
    if payloads == [] then [] else payloads[0] + Join(payloads[1..])
  }

  lemma {:induction false} JoinSnoc(payloads: seq<seq<Byte>>, p: seq<Byte>)
    ensures Join(payloads + [p]) == Join(payloads) + p
  {
    if payloads == [] {
      assert [p][1..] == [] && payloads + [p] == [p];
    } else {
      JoinSnoc(payloads[1..], p);
      assert (payloads + [p])[1..] == payloads[1..] + [p];
    }
  }

  /** All frames but the last are full, and the last is not empty. */
  predicate Full(payloads: seq<seq<Byte>>, size: nat) {
    forall i | 0 <= i < |payloads| ::
      0 < |payloads[i]| <= size && (i < |payloads| - 1 ==> |payloads[i]| == size)
  }

  /** The window after sliding down and loading more: `old` is what the upper half showed, `added` was loaded
      behind it, `rest` is still queued. */
  lemma WindowMoved(stream: seq<Byte>, from: nat, to: nat, size: nat, window: seq<Byte>, added: seq<Byte>,
                    rest: seq<Byte>)
    requires from <= to <= |stream| && to - from <= size && |window| == size + |added|
    requires window[..to - from] == stream[from..to] && window[size..] == added
    requires added + rest == stream[to..] && (added != [] ==> to - from == size)
    ensures to + |added| <= |stream| && rest == stream[to + |added|..]
    ensures window[..to + |added| - from] == stream[from..to + |added|]
  {
    assert added == stream[to..][..|added|];
    assert rest == stream[to..][|added|..];
    if added != [] {
      assert window == window[..size] + added;
      assert stream[from..to + |added|] == stream[from..to] + added;
    }
  }

  class Decoder {
    const size: nat
    const buffer: array<Byte>
    /** Where _state->payload points in the buffer. */
    var pos: nat
    var decodedLength: nat
    var queue: seq<seq<Byte>>
    var ready: bool
    /** All the bytes that were enqueued, and how many of them the window reaches up to. */
    ghost var stream: seq<Byte>
    ghost var loaded: nat

    /** Frames are being collected. */
    ghost predicate Collecting()
      reads this, buffer
    {
      && size > 0 && buffer.Length == 2 * size && !ready
      && decodedLength == 0 && loaded == 0
      && stream == Join(queue) && Full(queue, size)
    }

    /** The window shows the stream from decodedLength up to `loaded`, the queue holds the rest, and the
        rest is empty unless the window is full. */
    ghost predicate Valid()
      reads this, buffer
    {
      && size > 0 && buffer.Length == 2 * size && ready
      && decodedLength <= loaded <= |stream| && loaded <= decodedLength + 2 * size
      && buffer[..loaded - decodedLength] == stream[decodedLength..loaded]
      && Join(queue) == stream[loaded..] && Full(queue, size)
      && (queue != [] ==> loaded == decodedLength + 2 * size)
      && decodedLength + pos <= |stream| && pos <= 2 * size
    }

    /** How much of the stream has been decoded. */
    ghost function Consumed(): nat
      reads this
    {
      decodedLength + pos
    }

    constructor (size: nat)
      requires size > 0
      ensures Collecting() && stream == [] && this.size == size && fresh(buffer)
    {
      this.size := size;
      buffer := new Byte[2 * size](_ => 0);
      pos, decodedLength, queue, ready := 0, 0, [], false;
      stream, loaded := [], 0;
    }

    /** The loop that copies frames from the queue into the window while they fit. */
    method Read(start: nat, maxSize: nat) returns (end: nat)
      requires size > 0 && buffer.Length == 2 * size == maxSize && (start == 0 || start == size)
      requires Full(queue, size)
      modifies this`queue, this`loaded, buffer
      ensures start <= end <= maxSize && buffer[..start] == old(buffer[..start])
      ensures loaded == old(loaded) + (end - start)
      ensures Full(queue, size) && (queue != [] ==> end == maxSize)
      ensures buffer[start..end] + Join(queue) == Join(old(queue))
    {
      end := start;
      assert buffer[start..end] + Join(queue) == Join(queue);
      if queue == [] {
        return;
      }
      while end <= maxSize && queue != []
        invariant start <= end <= maxSize && Full(queue, size)
        invariant buffer[..start] == old(buffer[..start])
        invariant loaded == old(loaded) + (end - start)
        invariant buffer[start..end] + Join(queue) == Join(old(queue))
        invariant queue != [] ==> end == 0 || end == size || end == 2 * size
        decreases |queue|
      {
        if end + |queue[0]| > maxSize {
          break;
        }
        end := TakeFront(start, end);
      }
    }

    method TakeFront(ghost start: nat, end: nat) returns (end': nat)
      requires queue != [] && start <= end && end + |queue[0]| <= buffer.Length
      modifies this`queue, this`loaded, buffer
      ensures end' == end + old(|queue[0]|) && loaded == old(loaded) + old(|queue[0]|)
      ensures queue == old(queue)[1..] && buffer[..start] == old(buffer[..start])
      ensures buffer[start..end'] + Join(queue) == old(buffer[start..end] + Join(queue))
    {
      ghost var before, rest := buffer[start..end], Join(queue[1..]);
      var front := queue[0];
      ghost var prefix := buffer[..end];
      Copy(end, front);
      assert buffer[start..end] == buffer[..end][start..] == prefix[start..] == before;
      assert buffer[..start] == buffer[..end][..start] == prefix[..start];
      assert buffer[start..end + |front|] == before + front;
      assert before + (front + rest) == before + front + rest;
      end' := end + |front|;
      loaded := loaded + |front|;
      queue := queue[1..];
    }

    method Copy(to: nat, bytes: seq<Byte>)
      requires to + |bytes| <= buffer.Length
      modifies buffer
      ensures buffer[..to] == old(buffer[..to]) && buffer[to..to + |bytes|] == bytes
    {
      for i := 0 to |bytes|
        invariant buffer[..to] == old(buffer[..to]) && buffer[to..to + i] == bytes[..i]
      {
        buffer[to + i] := bytes[i];
      }
      assert bytes[..|bytes|] == bytes;
    }

    /** enqueue: the last frame of a report fills the window, and decoding starts behind the report type. */
    method Enqueue(payload: seq<Byte>, complete: bool) returns (done: bool)
      requires Collecting() && 0 < |payload| <= size && (!complete ==> |payload| == size)
      requires forall p <- queue :: |p| == size
      modifies this, buffer
      ensures done == complete && stream == old(stream) + payload
      ensures if complete then Valid() && Consumed() == 1
              else Collecting() && queue == old(queue) + [payload]
    {
      JoinSnoc(queue, payload);
      queue := queue + [payload];
      stream := stream + payload;
      done := complete;
      if complete {
        var end := Read(0, 2 * size);
        pos := 1;
        ready := true;
        assert stream == buffer[..end] + Join(queue);
      }
    }

    /** ensureLength: when the read position has left the first half of the window, the second half becomes the
        first and the next frame is read behind it. */
    method EnsureLength()
      requires Valid()
      modifies this, buffer
      ensures Valid() && pos <= size && Consumed() == old(Consumed()) && stream == old(stream)
    {
      if pos > size {
        assert queue == [] ==> Join(queue) == [] && loaded == |stream|;
        hide Join, Full;
        Slide();
        Refill();
      }
    }

    /** More is loaded behind the half of the window that has been slid down. */
    method Refill()
      requires size > 0 && buffer.Length == 2 * size && Full(queue, size)
      requires decodedLength <= loaded <= decodedLength + size && loaded <= |stream|
      requires buffer[..size][..loaded - decodedLength] == stream[decodedLength..loaded]
      requires Join(queue) == stream[loaded..] && (queue != [] ==> loaded == decodedLength + size)
      modifies buffer, this`queue, this`loaded
      ensures buffer.Length == 2 * size && Full(queue, size)
      ensures decodedLength <= loaded <= |stream| && loaded <= decodedLength + 2 * size
      ensures buffer[..loaded - decodedLength] == stream[decodedLength..loaded]
      ensures Join(queue) == stream[loaded..] && (queue != [] ==> loaded == decodedLength + 2 * size)
    {
      assert queue == [] ==> Join(queue) == [];
      hide Join, Full;
      ghost var shown, upTo := loaded - decodedLength, loaded;
      ghost var lower := buffer[..size];
      var end := Read(size, 2 * size);
      assert buffer[..end][..shown] == lower[..shown] == stream[decodedLength..upTo];
      WindowMoved(stream, decodedLength, upTo, size, buffer[..end], buffer[size..end], Join(queue));
      assert buffer[..loaded - decodedLength] == buffer[..end][..loaded - decodedLength];
    }

    method Slide()
      requires Valid() && pos > size
      modifies this`pos, this`decodedLength, buffer
      ensures pos == old(pos) - size && decodedLength == old(decodedLength) + size
      ensures decodedLength <= loaded <= decodedLength + size
      ensures buffer[..size][..loaded - decodedLength] == stream[decodedLength..loaded]
    {
      assert queue == [] ==> Join(queue) == [] && loaded == |stream|;
      hide Join, Full;
      ghost var shown := loaded - decodedLength - size;
      assert buffer[size..][..shown] == buffer[..shown + size][size..];
      SlideDown();
      decodedLength := decodedLength + size;
      pos := pos - size;
    }

    /** memmove of the second half of the window onto the first. */
    method SlideDown()
      requires buffer.Length == 2 * size
      modifies buffer
      ensures buffer[..size] == old(buffer[size..])
    {
      ghost var upper := buffer[size..];
      for i := 0 to size
        invariant buffer[..i] == upper[..i] && buffer[size..] == upper
      {
        buffer[i] := buffer[size + i];
      }
    }

    /** Decoding an item of `n` bytes. */
    method Decode(n: nat) returns (item: seq<Byte>)
      requires Valid() && n <= size && Consumed() + n <= |stream|
      modifies this, buffer
      ensures Valid() && stream == old(stream) && Consumed() == old(Consumed()) + n
      ensures item == stream[old(Consumed())..old(Consumed()) + n]
    {
      EnsureLength();
      item := buffer[pos..pos + n];
      PartOfWindow(buffer[..], stream, loaded - decodedLength, decodedLength, pos, n);
      pos := pos + n;
    }
  }

  /** What a window shows, a part of it shows. */
  lemma PartOfWindow(window: seq<Byte>, stream: seq<Byte>, shown: nat, from: nat, pos: nat, n: nat)
    requires shown <= |window| && from + shown <= |stream| && window[..shown] == stream[from..from + shown]
    requires pos + n <= shown
    ensures window[pos..pos + n] == stream[from + pos..from + pos + n]
  {
    SliceOfSlice(window, 0, shown, pos, pos + n);
    SliceOfSlice(stream, from, from + shown, pos, pos + n);
  }
}
