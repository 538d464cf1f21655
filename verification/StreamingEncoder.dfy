/** StreamingThingSetBinaryEncoder: a window of two frames that is shifted down each time the first half has been
    written. CBOR items are byte strings that are put into the window whole. */
module StreamingEncoder {
  import opened Crc32
  import opened Framing

  class Encoder {
    const size: nat
    const headerSize: nat
    const buffer: array<Byte>
    /** Where _state->payload points in the buffer. */
    var pos: nat
    var exportedLength: nat
    /** An 8-bit counter of which four bits are sent. */
    var sequenceNumber: nat
    /** The frames the transport has accepted. */
    var frames: seq<Frame>

    function DataSize(): nat
      requires headerSize < size
    {
      size - headerSize
    }

    ghost predicate Valid()
      reads this, buffer
    {
      && headerSize < size && buffer.Length == 2 * size
      && headerSize <= pos <= headerSize + 2 * DataSize()
      && Begun(frames, DataSize())
      && exportedLength == |Flat(frames)| && (exportedLength == 0 <==> frames == [])
      && sequenceNumber == |frames| % 256
      && (frames != [] ==> pos > headerSize)
    }

    /** Everything encoded so far, sent or not. */
    ghost function Stream(): seq<Byte>
      requires Valid()
      reads this, buffer
    {
      Flat(frames) + buffer[headerSize..pos]
    }

    /** The constructors of the transports put the report type in front. */
    constructor (size: nat, headerSize: nat, initial: seq<Byte>)
      requires headerSize < size && |initial| <= size - headerSize
      ensures Valid() && this.size == size && this.headerSize == headerSize
      ensures Stream() == initial && frames == [] && fresh(buffer)
    {
      this.size, this.headerSize := size, headerSize;
      var b := new Byte[2 * size](_ => 0);
      for i := 0 to |initial|
        invariant b[headerSize..headerSize + i] == initial[..i]
      {
        b[headerSize + i] := initial[i];
      }
      assert initial[..|initial|] == initial;
      buffer := b;
      pos := headerSize + |initial|;
      exportedLength, sequenceNumber, frames := 0, 0, [];
      new;
      assert Flat(frames) + buffer[headerSize..pos] == initial;
    }

    /** write: the transport takes `length` bytes behind the header, unless it refuses. */
    method Write(length: nat, flushing: bool, accept: bool) returns (ok: bool)
      requires headerSize < size && buffer.Length == 2 * size && headerSize + length <= 2 * size
      modifies this`frames, this`sequenceNumber
      ensures ok == accept && sequenceNumber == (old(sequenceNumber) + 1) % 256
      ensures frames == if accept then
                          old(frames) + [Frame(if exportedLength == 0 then if flushing then Single else First
                                               else if flushing then Last else Consecutive,
                                               old(sequenceNumber) % 16, buffer[headerSize..headerSize + length])]
                        else old(frames)
    {
      var kind := if exportedLength == 0 then (if flushing then Single else First)
                  else (if flushing then Last else Consecutive);
      var number := sequenceNumber % 16;
      sequenceNumber := (sequenceNumber + 1) % 256;
      ok := accept;
      if accept {
        frames := frames + [Frame(kind, number, buffer[headerSize..headerSize + length])];
      }
    }

    /** memmove within the buffer. */
    method Move(to: nat, from: nat, count: nat)
      requires to <= from && from + count <= buffer.Length
      modifies buffer
      ensures buffer[to..to + count] == old(buffer[from..from + count])
      ensures buffer[..to] == old(buffer[..to])
    {
      for i := 0 to count
        invariant buffer[to..to + i] == old(buffer[from..from + i])
        invariant buffer[..to] == old(buffer[..to])
        invariant forall k | to + i <= k < buffer.Length :: buffer[k] == old(buffer[k])
      {
        buffer[to + i] := buffer[from + i];
      }
    }

    /** If more than a frame's worth is in the window, the first frame leaves it. */
    method WriteIfNecessary(accept: bool) returns (ok: bool)
      requires Valid()
      modifies this, buffer
      ensures ok == (accept || old(pos) - headerSize <= DataSize())
      ensures ok ==> Valid() && pos - headerSize <= DataSize() && Stream() == old(Stream())
      ensures ok && old(pos) > headerSize ==> pos > headerSize
      ensures !ok ==> frames == old(frames) && pos == old(pos) && buffer[..] == old(buffer[..])
    {
      ok := true;
      if pos - headerSize > DataSize() {
        ok := Shift(accept);
      }
    }

    method Shift(accept: bool) returns (ok: bool)
      requires Valid() && pos - headerSize > DataSize()
      modifies this, buffer
      ensures ok == accept
      ensures ok ==> Valid() && headerSize < pos <= size && Stream() == old(Stream())
      ensures !ok ==> frames == old(frames) && pos == old(pos) && buffer[..] == old(buffer[..])
    {
      hide Begun, Flat;
      ghost var first, rest := buffer[headerSize..size], buffer[size..pos];
      assert buffer[headerSize..pos] == first + rest;
      LowerHalf(|frames|);
      ok := Write(DataSize(), false, accept);
      if ok {
        BegunSnoc(old(frames), DataSize(), frames[|frames| - 1]);
        Slide();
        assert Flat(old(frames)) + (first + rest) == Flat(old(frames)) + first + rest;
      }
    }

    /** The second half of the window becomes the first. */
    method Slide()
      requires headerSize < size && buffer.Length == 2 * size && size < pos <= 2 * size
      modifies this`pos, this`exportedLength, buffer
      ensures pos == old(pos) - DataSize() && exportedLength == old(exportedLength) + DataSize()
      ensures buffer[headerSize..pos] == old(buffer[size..pos])
    {
      Move(headerSize, size, size);
      exportedLength := exportedLength + DataSize();
      pos := pos - DataSize();
      SliceOfSlice(buffer[..], headerSize, headerSize + size, 0, pos - headerSize);
      SliceOfSlice(old(buffer[..]), size, 2 * size, 0, old(pos) - size);
    }

    /** Encoding one item: ensureState, then zcbor puts the item into the window. */
    method Encode(item: seq<Byte>, accept: bool) returns (ok: bool)
      requires Valid() && |item| <= DataSize()
      modifies this, buffer
      ensures ok ==> Valid() && Stream() == old(Stream()) + item
      ensures ok == (accept || old(pos) - headerSize <= DataSize())
    {
      ok := WriteIfNecessary(accept);
      if !ok {
        return;
      }
      Put(item);
    }

    /** The item goes where the payload pointer is. */
    method Put(item: seq<Byte>)
      requires Valid() && pos + |item| <= headerSize + 2 * DataSize()
      modifies this`pos, buffer
      ensures Valid() && Stream() == old(Stream()) + item
    {
      ghost var before := buffer[headerSize..pos];
      for i := 0 to |item|
        modifies buffer
        invariant buffer[headerSize..pos] == before
        invariant buffer[pos..pos + i] == item[..i]
      {
        buffer[pos + i] := item[i];
      }
      assert item[..|item|] == item;
      assert buffer[headerSize..pos + |item|] == before + item;
      pos := pos + |item|;
    }

    /** Flushing writes what is left as one last frame. */
    method Flush(accept: bool) returns (ok: bool)
      requires Valid()
      modifies this, buffer
      ensures ok == accept
      ensures ok ==> frames == Frames(old(Stream()), DataSize(), 0)
    {
      hide Begun, Flat, Frames;
      ok := true;
      if pos - headerSize > DataSize() {
        ok := WriteIfNecessary(accept);
      }
      if ok {
        ClearBehind();
        ok := WriteRest(accept);
      }
    }

    /** memset of the unused part of the window. */
    method ClearBehind()
      requires Valid()
      modifies buffer
      ensures Valid() && Stream() == old(Stream())
    {
      hide Begun, Flat;
      ghost var rest := buffer[headerSize..pos];
      for i := pos to buffer.Length
        invariant buffer[headerSize..pos] == rest
      {
        buffer[i] := 0;
      }
    }

    method WriteRest(accept: bool) returns (ok: bool)
      requires Valid() && pos - headerSize <= DataSize()
      modifies this
      ensures ok == accept
      ensures ok ==> frames == Frames(old(Stream()), DataSize(), 0)
    {
      hide Begun, Flat, Frames;
      ghost var rest := buffer[headerSize..pos];
      BegunEnds(frames, DataSize(), rest);
      LowerHalf(|frames|);
      var currentLength := pos - headerSize;
      ok := Write(currentLength, true, accept);
      exportedLength := exportedLength + currentLength;
    }
  }
}
