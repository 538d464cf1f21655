/** Saving properties to EEPROM and loading them again: the streaming codec on a device, with a header that holds the
    length and a running CRC. */
module Eeprom {
  import opened ByteValue
  import opened Crc32
  import opened Framing
  import opened StreamingEncoder
  import opened StreamingDecoder
  import opened ReportRoundTrip
  import opened Wrappers

  // ----- the header

  const HEADER: nat := 8

  datatype Header = Header(version: nat, dataLen: nat, crc: bv32)

  function LowByte(n: nat): Byte { ByteOf(n % 256) }

  /** The packed struct, little-endian; both 16-bit fields truncate. */
  function HeaderBytes(h: Header): seq<Byte> {
    [LowByte(h.version), LowByte(h.version / 256), LowByte(h.dataLen), LowByte(h.dataLen / 256),
     Part(h.crc, 0), Part(h.crc, 8), Part(h.crc, 16), Part(h.crc, 24)]
  }

  function Word(lo: Byte, hi: Byte): nat { Number(lo) + 256 * Number(hi) }

  function HeaderOf(b: seq<Byte>): Header
    requires |b| == HEADER
  {
    Header(Word(b[0], b[1]), Word(b[2], b[3]),
           b[4] as bv32 | (b[5] as bv32 << 8) | (b[6] as bv32 << 16) | (b[7] as bv32 << 24))
  }

  lemma WordIsRead(n: nat)
    ensures Word(LowByte(n), LowByte(n / 256)) == n % 65536
  {
    hide ByteOf, Number;
    var lo, hi := n % 256, (n / 256) % 256;
    ByteIsRead(lo);
    ByteIsRead(hi);
    assert n % 65536 == lo + 256 * hi;
  }

  lemma CrcIsRead(x: bv32)
    ensures Part(x, 0) as bv32 | (Part(x, 8) as bv32 << 8) | (Part(x, 16) as bv32 << 16) | (Part(x, 24) as bv32 << 24)
            == x
  {
  }

  /** A header reads back as it was written, up to the width of its fields. */
  lemma HeaderIsRead(h: Header)
    ensures HeaderOf(HeaderBytes(h)) == Header(h.version % 65536, h.dataLen % 65536, h.crc)
  {
    hide LowByte, Part, Word;
    WordIsRead(h.version);
    WordIsRead(h.dataLen);
    CrcIsRead(h.crc);
  }

  // ----- saving

  /** How one attempt to write a chunk goes: the driver refuses, the read-back fails, it shows something
      else, or all is well. */
  datatype Attempt = WriteFails | ReadFails | Mismatch(stored: seq<Byte>) | Succeeds

  /** What the device holds after these attempts where it held `old`. */
  function Stored(before: seq<Byte>, chunk: seq<Byte>, attempts: seq<Attempt>): (r: seq<Byte>)
    requires |before| == |chunk| && forall a <- attempts | a.Mismatch? :: |a.stored| == |chunk|
    ensures |r| == |chunk|
    decreases |attempts|
  {
    if attempts == [] then before
    else match attempts[0]
      case WriteFails => Stored(before, chunk, attempts[1..])
      case ReadFails => Stored(chunk, chunk, attempts[1..])
      case Mismatch(stored) => Stored(stored, chunk, attempts[1..])
      case Succeeds => chunk
  }

  method Program(device: array<Byte>, offset: nat, bytes: seq<Byte>)
    requires offset + |bytes| <= device.Length
    modifies device
    ensures device[..] == old(device[..offset]) + bytes + old(device[offset + |bytes|..])
  {
    ghost var tail := device[offset + |bytes|..];
    for i := 0 to |bytes|
      invariant device[..offset] == old(device[..offset])
      invariant device[offset..offset + i] == bytes[..i]
      invariant device[offset + |bytes|..] == tail
    {
      device[offset + i] := bytes[i];
    }
    assert bytes[..|bytes|] == bytes;
    assert device[..] == device[..offset] + device[offset..offset + |bytes|] + device[offset + |bytes|..];
  }

  class Writer {
    const device: array<Byte>
    const initialOffset: nat
    const version: nat
    var offset: nat
    var crc: bv32

    constructor (device: array<Byte>, initialOffset: nat, version: nat)
      ensures this.device == device && this.initialOffset == initialOffset && this.version == version
      ensures offset == initialOffset + HEADER && crc == 0
    {
      this.device, this.initialOffset, this.version := device, initialOffset, version;
      offset, crc := initialOffset + HEADER, 0;
    }

    /** write. The result code that the attempts of the loop assign is a variable of the loop, so the check behind
        the loop looks at another one, which is zero: the method reports success even if every attempt
        has failed. Whether the driver takes the header is not looked at either. */
    method Write(chunk: seq<Byte>, flushing: bool, attempts: seq<Attempt>, headerTaken: bool) returns (ok: bool)
      requires initialOffset + HEADER <= offset && offset + |chunk| <= device.Length
      requires forall a <- attempts | a.Mismatch? :: |a.stored| == |chunk|
      modifies this, device
      ensures ok
      ensures offset == old(offset) + |chunk| && crc == Crc(old(crc), chunk)
      ensures device[initialOffset + HEADER..]
              == old(device[initialOffset + HEADER..offset])
                 + Stored(old(device[offset..offset + |chunk|]), chunk, attempts)
                 + old(device[offset + |chunk|..])
      ensures device[initialOffset..initialOffset + HEADER]
              == if flushing && headerTaken then HeaderBytes(Header(version, offset - initialOffset - HEADER, crc))
                 else old(device[initialOffset..initialOffset + HEADER])
    {
      WriteChunk(chunk, attempts);
      var err := 0;
      if err != 0 {
        return false;
      }
      crc := Crc32IeeeUpdate(crc, chunk);
      offset := offset + |chunk|;
      if flushing && headerTaken {
        Program(device, initialOffset, HeaderBytes(Header(version, offset - initialOffset - HEADER, crc)));
      }
      ok := true;
    }

    method WriteChunk(chunk: seq<Byte>, attempts: seq<Attempt>)
      requires offset + |chunk| <= device.Length
      requires forall a <- attempts | a.Mismatch? :: |a.stored| == |chunk|
      modifies device
      ensures device[..] == old(device[..offset])
                            + Stored(old(device[offset..offset + |chunk|]), chunk, attempts)
                            + old(device[offset + |chunk|..])
    {
      var i := 0;
      ghost var head, tail := device[..offset], device[offset + |chunk|..];
      assert device[..] == head + device[offset..offset + |chunk|] + tail;
      while i < |attempts|
        invariant i <= |attempts|
        invariant device[..] == head + device[offset..offset + |chunk|] + tail
        invariant Stored(device[offset..offset + |chunk|], chunk, attempts[i..])
                  == Stored(old(device[offset..offset + |chunk|]), chunk, attempts)
      {
        assert attempts[i..][1..] == attempts[i + 1..] && attempts[i] in attempts;
        match attempts[i] {
          case WriteFails =>
          case ReadFails =>
            Overwrite(chunk, head, tail);
          case Mismatch(stored) =>
            Overwrite(stored, head, tail);
          case Succeeds =>
            Overwrite(chunk, head, tail);
            return;
        }
        i := i + 1;
      }
    }

    method Overwrite(bytes: seq<Byte>, ghost head: seq<Byte>, ghost tail: seq<Byte>)
      requires offset + |bytes| <= device.Length && |head| == offset
      requires device[..] == head + device[offset..offset + |bytes|] + tail
      modifies device
      ensures device[..] == head + bytes + tail && device[offset..offset + |bytes|] == bytes
    {
      assert device[..offset] == device[..][..offset] == head;
      assert device[offset + |bytes|..] == device[..][offset + |bytes|..] == tail;
      Program(device, offset, bytes);
      assert device[offset..offset + |bytes|] == device[..][offset..offset + |bytes|];
    }
  }

  /** The last attempt that the driver did not refuse. */
  function LastTaken(attempts: seq<Attempt>): Option<Attempt> {
    if attempts == [] then None
    else
      var later := LastTaken(attempts[1..]);
      if later.Some? || attempts[0].WriteFails? then later else Some(attempts[0])
  }

  /** Write has returned true, and the device holds the chunk in exactly these cases: an attempt succeeded; the last
      one that was not refused could not be read back, or only looked wrong; or all were refused and the chunk had
      been there before. */
  lemma {:induction false} StoredExactlyIf(before: seq<Byte>, chunk: seq<Byte>, attempts: seq<Attempt>)
    requires |before| == |chunk| && forall a <- attempts | a.Mismatch? :: |a.stored| == |chunk|
    ensures Stored(before, chunk, attempts) == chunk
            <==> || Succeeds in attempts
                 || (match LastTaken(attempts)
                     case Some(last) => last == ReadFails || last == Mismatch(chunk)
                     case None => before == chunk)
    decreases |attempts|
  {
    if attempts != [] {
      assert attempts[0] in attempts && forall a <- attempts[1..] :: a in attempts;
      var now := match attempts[0] case ReadFails => chunk case Mismatch(stored) => stored case _ => before;
      assert Succeeds in attempts <==> attempts[0] == Succeeds || Succeeds in attempts[1..];
      StoredExactlyIf(now, chunk, attempts[1..]);
    }
  }

  /** A byte that is lost: the driver refuses every attempt and the header, and both writes are reported as done. */
  method LoseByte(attempts: seq<Attempt>) returns (device: array<Byte>, ok: bool)
    requires forall a <- attempts :: a == WriteFails
    ensures ok && fresh(device) && device[..] == seq(HEADER + 1, _ => 0 as Byte)
  {
    device := new Byte[HEADER + 1](_ => 0);
    ghost var blank := device[..];
    assert blank == seq(HEADER + 1, _ => 0 as Byte);
    var w := new Writer(device, 0, 1);
    NothingStored([0], [1], attempts);
    assert device[HEADER..HEADER + 1] == [0] && device[HEADER..HEADER] == [] && device[HEADER + 1..] == [];
    hide HeaderBytes, Stored, Crc;
    ok := w.Write([1], true, attempts, false);
    assert device[..] == device[0..HEADER] + device[HEADER..];
  }

  lemma {:induction false} NothingStored(before: seq<Byte>, chunk: seq<Byte>, attempts: seq<Attempt>)
    requires |before| == |chunk| && forall a <- attempts :: a == WriteFails
    ensures Stored(before, chunk, attempts) == before
    decreases |attempts|
  {
    if attempts != [] {
      assert attempts[0] in attempts && forall a <- attempts[1..] :: a in attempts;
      NothingStored(before, chunk, attempts[1..]);
    }
  }

  // ----- loading

  lemma CrcGoesOn(data: seq<Byte>, from: nat, count: nat)
    requires from + count <= |data|
    ensures Crc(Crc(0, data[..from]), data[from..from + count]) == Crc(0, data[..from + count])
  {
    hide Crc;
    CrcOfChunks(0, data[..from], data[from..from + count]);
    assert data[..from] + data[from..from + count] == data[..from + count];
  }

  class Loader {
    const size: nat
    const buffer: array<Byte>
    const device: array<Byte>
    const localOffset: nat
    const header: Header
    var pos: nat
    var decodedLength: nat
    var offset: nat
    var crc: bv32

    /** The saved bytes, as many as the header says there are. */
    ghost const data: seq<Byte>

    ghost predicate Window()
      reads this, device
    {
      && size > 0 && buffer.Length == 2 * size && buffer != device
      && localOffset + header.dataLen <= device.Length
      && data == device[localOffset..localOffset + header.dataLen]
      && localOffset <= offset <= localOffset + header.dataLen
    }

    /** The window shows the data from decodedLength up to what has been read; the reader is ahead of the decoder
        by the whole window or has reached the end; the CRC covers what has been read. */
    ghost predicate Valid()
      reads this, buffer, device
    {
      && Window()
      && var read := offset - localOffset;
         && decodedLength <= read <= decodedLength + 2 * size
         && (read < decodedLength + 2 * size ==> read == header.dataLen)
         && buffer[..read - decodedLength] == data[decodedLength..read]
         && crc == Crc(0, data[..read])
         && decodedLength + pos <= header.dataLen && pos <= 2 * size
    }

    ghost function Consumed(): nat
      reads this
    {
      decodedLength + pos
    }

    /** The header is read and the window filled. */
    constructor (device: array<Byte>, offset: nat, size: nat)
      requires size > 0 && offset + HEADER <= device.Length
      requires offset + HEADER + HeaderOf(device[offset..offset + HEADER]).dataLen <= device.Length
      ensures Valid() && Consumed() == 0 && this.size == size && this.device == device
      ensures header == HeaderOf(device[offset..offset + HEADER]) && localOffset == offset + HEADER
      ensures data == device[localOffset..localOffset + header.dataLen]
      ensures fresh(buffer)
    {
      this.size, this.device := size, device;
      buffer := new Byte[2 * size](_ => 0);
      var head := device[offset..offset + HEADER];
      var h := HeaderOf(head);
      header := h;
      localOffset := offset + HEADER;
      data := device[offset + HEADER..offset + HEADER + h.dataLen];
      this.offset := offset + HEADER;
      pos, decodedLength, crc := 0, 0, 0;
      new;
      hide Crc, HeaderOf;
      Fill();
      assert device[offset..offset + HEADER] == head;
    }

    /** The first read fills the whole window. */
    method Fill()
      requires Window() && offset == localOffset && decodedLength == pos == 0 && crc == 0
      modifies this`offset, this`crc, buffer
      ensures Valid()
    {
      hide Crc, HeaderOf;
      EmptyCrc(0);
      assert data[..0] == [];
      var chunk := Read(0, 2 * size);
      assert data[..chunk] == data[0..chunk];
    }

    /** read: at most maxSize bytes, at most what is left. */
    method Read(at: nat, maxSize: nat) returns (chunk: nat)
      requires Window() && at + maxSize <= buffer.Length && crc == Crc(0, data[..offset - localOffset])
      modifies this`offset, this`crc, buffer
      ensures Window() && crc == Crc(0, data[..offset - localOffset])
      ensures offset == old(offset) + chunk && chunk <= maxSize
      ensures chunk < maxSize ==> offset == localOffset + header.dataLen
      ensures buffer[..at] == old(buffer[..at])
      ensures buffer[at..at + chunk] == data[old(offset) - localOffset..offset - localOffset]
    {
      var remaining := header.dataLen - (offset - localOffset);
      chunk := if remaining < maxSize then remaining else maxSize;
      hide Crc, HeaderOf;
      ReadData(at, chunk);
      Account(buffer[at..at + chunk]);
    }

    /** The reader is behind these bytes. */
    method Account(bytes: seq<Byte>)
      requires Window() && crc == Crc(0, data[..offset - localOffset])
      requires offset - localOffset + |bytes| <= header.dataLen
      requires bytes == data[offset - localOffset..offset - localOffset + |bytes|]
      modifies this`offset, this`crc
      ensures Window() && crc == Crc(0, data[..offset - localOffset])
      ensures offset == old(offset) + |bytes|
    {
      hide Crc, HeaderOf;
      crc := Crc32IeeeUpdate(crc, bytes);
      CrcGoesOn(data, offset - localOffset, |bytes|);
      offset := offset + |bytes|;
    }

    method ReadData(at: nat, count: nat)
      requires Window() && at + count <= buffer.Length && offset - localOffset + count <= header.dataLen
      modifies buffer
      ensures Window() && buffer[..at] == old(buffer[..at])
      ensures buffer[at..at + count] == data[offset - localOffset..offset - localOffset + count]
    {
      var from := offset - localOffset;
      SliceOfSlice(device[..], localOffset, localOffset + header.dataLen, from, from + count);
      Copy(at, count);
    }

    /** The driver's read. */
    method Copy(at: nat, count: nat)
      requires buffer != device && at + count <= buffer.Length && offset + count <= device.Length
      modifies buffer
      ensures buffer[..at] == old(buffer[..at]) && buffer[at..at + count] == device[offset..offset + count]
    {
      for i := 0 to count
        invariant buffer[..at] == old(buffer[..at]) && buffer[at..at + i] == device[offset..offset + i]
      {
        buffer[at + i] := device[offset + i];
      }
    }

    /** ensureLength, with the read-ahead of this transport. */
    method EnsureLength()
      requires Valid()
      modifies this, buffer
      ensures Valid() && pos <= size && Consumed() == old(Consumed())
    {
      hide Crc, HeaderOf;
      if pos > size {
        Slide();
        ReadBehind();
      }
    }

    /** The next chunk is read behind the half of the window that has been slid down. */
    method ReadBehind()
      requires Window() && crc == Crc(0, data[..offset - localOffset])
      requires decodedLength <= offset - localOffset <= decodedLength + size
      requires offset - localOffset < decodedLength + size ==> offset == localOffset + header.dataLen
      requires buffer[..size][..offset - localOffset - decodedLength] == data[decodedLength..offset - localOffset]
      modifies this`offset, this`crc, buffer
      ensures Window() && crc == Crc(0, data[..offset - localOffset])
      ensures decodedLength <= offset - localOffset <= decodedLength + 2 * size
      ensures offset - localOffset < decodedLength + 2 * size ==> offset == localOffset + header.dataLen
      ensures buffer[..offset - localOffset - decodedLength] == data[decodedLength..offset - localOffset]
    {
      hide Crc, HeaderOf;
      ghost var to := offset - localOffset;
      ghost var shown := to - decodedLength;
      ghost var lower := buffer[..size];
      var chunk := Read(size, size);
      ghost var all := buffer[..size + chunk];
      assert all[..shown] == lower[..shown];
      DropSplit(data, to, chunk);
      WindowMoved(data, decodedLength, to, size, all, buffer[size..size + chunk], data[to + chunk..]);
      assert buffer[..shown + chunk] == all[..shown + chunk];
    }

    method Slide()
      requires Valid() && pos > size
      modifies this`pos, this`decodedLength, buffer
      ensures pos == old(pos) - size && decodedLength == old(decodedLength) + size
      ensures decodedLength <= offset - localOffset <= decodedLength + size
      ensures buffer[..size][..offset - localOffset - decodedLength] == data[decodedLength..offset - localOffset]
    {
      hide Crc, HeaderOf;
      ghost var shown := offset - localOffset - decodedLength - size;
      ghost var window, upper := buffer[..], buffer[size..];
      PartOfWindow(window, data, shown + size, decodedLength, size, shown);
      SliceOfSlice(window, size, 2 * size, 0, shown);
      assert upper[..shown] == data[decodedLength + size..offset - localOffset];
      SlideDown();
      assert buffer[..size] == upper;
      decodedLength := decodedLength + size;
      pos := pos - size;
    }

    /** memmove of the second half of the window onto the first. */
    method SlideDown()
      requires buffer.Length == 2 * size
      modifies buffer
      ensures buffer[..size] == old(buffer[size..])
    {
      ghost var upper := buffer[size..];
      for i := 0 to size
        invariant buffer[..i] == upper[..i] && buffer[size..] == upper
      {
        buffer[i] := buffer[size + i];
      }
    }

    method Decode(n: nat) returns (item: seq<Byte>)
      requires Valid() && n <= size && Consumed() + n <= header.dataLen
      modifies this, buffer
      ensures Valid() && Consumed() == old(Consumed()) + n
      ensures item == data[old(Consumed())..old(Consumed()) + n]
    {
      hide Crc, HeaderOf;
      EnsureLength();
      item := buffer[pos..pos + n];
      PartOfWindow(buffer[..], data, offset - localOffset - decodedLength, decodedLength, pos, n);
      pos := pos + n;
    }

    /** verify. Once everything has been decoded, everything has been read, so this compares the CRC of exactly the
        saved bytes with the one in the header. */
    method Verify() returns (ok: bool)
      requires Valid()
      ensures Consumed() == header.dataLen ==> (ok <==> header.crc == Crc(0, data))
    {
      assert Consumed() == header.dataLen ==> data[..offset - localOffset] == data;
      ok := header.crc == crc;
    }
  }

  lemma DropSplit(data: seq<Byte>, at: nat, n: nat)
    requires at + n <= |data|
    ensures data[at..] == data[at..at + n] + data[at + n..]
  {
  }

  lemma EmptyCrc(crc: bv32)
    ensures Crc(crc, []) == crc
  {
    NotNot(crc);
  }

  // ----- save and load

  /** The device holds these frames' bytes, and the writer stands behind them. */
  ghost predicate Written(w: Writer, frames: seq<Frame>)
    reads w, w.device
  {
    && w.offset == w.initialOffset + HEADER + |Flat(frames)| <= w.device.Length
    && w.device[w.initialOffset + HEADER..w.offset] == Flat(frames)
    && w.crc == Crc(0, Flat(frames))
  }

  method WriteFrame(w: Writer, ghost frames: seq<Frame>, f: Frame)
    requires Written(w, frames) && w.offset + |f.payload| <= w.device.Length
    modifies w, w.device
    ensures Written(w, frames + [f])
    ensures IsLast(f) ==> w.device[w.initialOffset..w.initialOffset + HEADER]
                          == HeaderBytes(Header(w.version, |Flat(frames + [f])|, w.crc))
  {
    hide Crc, Flat, HeaderBytes;
    FlatSnoc(frames, f);
    CrcOfChunks(0, Flat(frames), f.payload);
    ghost var tail := w.device[w.offset + |f.payload|..];
    var ok := w.Write(f.payload, IsLast(f), [Succeeds], true);
    ghost var all := w.device[w.initialOffset + HEADER..];
    assert all == Flat(frames) + f.payload + tail;
    assert w.device[w.initialOffset + HEADER..w.offset] == all[..|Flat(frames + [f])|];
  }

  /** The encoder's writes, the last of which completes the header. */
  method WriteFrames(w: Writer, frames: seq<Frame>)
    requires Written(w, []) && frames != [] && IsLast(frames[|frames| - 1])
    requires w.offset + |Flat(frames)| <= w.device.Length
    modifies w, w.device
    ensures Written(w, frames)
    ensures w.device[w.initialOffset..w.initialOffset + HEADER]
            == HeaderBytes(Header(w.version, |Flat(frames)|, w.crc))
  {
    hide Crc, HeaderBytes;
    assert frames[..0] == [];
    for i := 0 to |frames|
      invariant Written(w, frames[..i])
      invariant i == |frames| ==>
                  w.device[w.initialOffset..w.initialOffset + HEADER]
                  == HeaderBytes(Header(w.version, |Flat(frames[..i])|, w.crc))
    {
      PrefixFits(frames, i);
      assert frames[..i + 1] == frames[..i] + [frames[i]];
      hide Flat;
      WriteFrame(w, frames[..i], frames[i]);
    }
    assert frames[..|frames|] == frames;
  }

  method Save(device: array<Byte>, offset: nat, version: nat, size: nat, items: seq<seq<Byte>>)
    requires 0 < size && forall item <- items :: |item| <= size
    requires offset + HEADER + |Join(items)| <= device.Length
    modifies device
    ensures device[offset + HEADER..offset + HEADER + |Join(items)|] == Join(items)
    ensures device[offset..offset + HEADER] == HeaderBytes(Header(version, |Join(items)|, Crc(0, Join(items))))
  {
    hide Crc, HeaderBytes, Join, Frames;
    assert [] + Join(items) == Join(items);
    var frames := EncodeReport(size, 0, [], items);
    FramesAreFlat(Join(items), size, 0);
    FramesAreFinished(Join(items), size);
    var w := new Writer(device, offset, version);
    EmptyCrc(0);
    WriteFrames(w, frames);
  }

  lemma {:induction false} PrefixFits(frames: seq<Frame>, i: nat)
    requires i < |frames|
    ensures |Flat(frames[..i])| + |frames[i].payload| <= |Flat(frames)|
    decreases |frames|
  {
    var init := frames[..|frames| - 1];
    if i < |init| {
      PrefixFits(init, i);
      assert init[..i] == frames[..i];
    }
  }

  lemma ItemInData(items: seq<seq<Byte>>, i: nat)
    requires i < |items|
    ensures var at := |Join(items[..i])|;
            at + |items[i]| <= |Join(items)| && Join(items)[at..at + |items[i]|] == items[i]
  {
    var data := [0] + Join(items);
    var at := |Join(items[..i])|;
    assert data[1..] == Join(items);
    ItemInStream(items, i, data, data);
    assert data[1 + at..1 + at + |items[i]|] == Join(items)[at..at + |items[i]|];
  }

  lemma ValidHasData(loader: Loader)
    requires loader.Valid()
    ensures |loader.data| == loader.header.dataLen
  {
  }

  method DecodeNext(loader: Loader, length: nat, ghost items: seq<seq<Byte>>, ghost i: nat) returns (item: seq<Byte>)
    requires i < |items| && length == |items[i]| <= loader.size
    requires loader.Valid() && loader.data == Join(items)
    requires loader.Consumed() == |Join(items[..i])|
    modifies loader, loader.buffer
    ensures item == items[i] && loader.Valid() && loader.Consumed() == |Join(items[..i + 1])|
  {
    ItemInData(items, i);
    ValidHasData(loader);
    JoinSnoc(items[..i], items[i]);
    assert items[..i + 1] == items[..i] + [items[i]];
    hide Join, Loader.Valid, Loader.Consumed;
    item := loader.Decode(length);
  }

  method DecodeAll(loader: Loader, lengths: seq<nat>, ghost items: seq<seq<Byte>>) returns (decoded: seq<seq<Byte>>)
    requires lengths == Lengths(items)
    requires loader.Valid() && loader.Consumed() == 0 && loader.data == Join(items)
    requires forall item <- items :: |item| <= loader.size
    modifies loader, loader.buffer
    ensures decoded == items && loader.Valid() && loader.Consumed() == |loader.data|
  {
    decoded := [];
    assert Join(items[..0]) == [];
    hide Join, Loader.Valid, Loader.Consumed;
    for i := 0 to |lengths|
      invariant loader.Valid() && loader.Consumed() == |Join(items[..i])|
      invariant decoded == items[..i]
    {
      assert items[i] in items;
      var item := DecodeNext(loader, lengths[i], items, i);
      decoded := decoded + [item];
    }
    assert items[..|items|] == items;
  }

  /** The loading side, which knows the device and the lengths it asks for: it reads back the items that were saved, all
      of which have been read by the time the last one has been decoded, and the CRC is found to be right. */
  method Load(device: array<Byte>, offset: nat, size: nat, lengths: seq<nat>, ghost version: nat,
              ghost items: seq<seq<Byte>>) returns (loaded: seq<seq<Byte>>, verified: bool)
    requires 0 < size && lengths == Lengths(items) && forall item <- items :: |item| <= size
    requires offset + HEADER + |Join(items)| <= device.Length && |Join(items)| < 65536
    requires device[offset + HEADER..offset + HEADER + |Join(items)|] == Join(items)
    requires device[offset..offset + HEADER] == HeaderBytes(Header(version, |Join(items)|, Crc(0, Join(items))))
    ensures loaded == items && verified
  {
    hide Crc, HeaderBytes, HeaderOf, Join, Lengths;
    HeaderIsRead(Header(version, |Join(items)|, Crc(0, Join(items))));
    var loader := new Loader(device, offset, size);
    loaded := DecodeAll(loader, lengths, items);
    verified := loader.Verify();
  }

  /** Save/load integrity on a device without faults. */
  method SaveAndLoad(device: array<Byte>, offset: nat, version: nat, size: nat, items: seq<seq<Byte>>)
    returns (loaded: seq<seq<Byte>>, verified: bool)
    requires 0 < size && forall item <- items :: |item| <= size
    requires offset + HEADER + |Join(items)| <= device.Length && |Join(items)| < 65536
    modifies device
    ensures loaded == items && verified
  {
    var lengths := seq(|items|, i requires 0 <= i < |items| => |items[i]|);
    hide Crc, HeaderBytes, HeaderOf, Join;
    Save(device, offset, version, size, items);
    loaded, verified := Load(device, offset, size, lengths, version, items);
  }
}
