/** How a report of any length is cut into frames: the specification that the sliding-window encoder and decoder
    are proved against. */
module Framing {
  import opened Crc32

  datatype FrameType = Single | First | Consecutive | Last

  /** One frame of a report: its type and sequence number, wherever the transport puts them, and what it
      carries behind its header. */
  datatype Frame = Frame(kind: FrameType, number: nat, payload: seq<Byte>)

  lemma SliceOfSlice<T>(s: seq<T>, from: nat, to: nat, a: nat, b: nat)
    requires from <= to <= |s| && a <= b <= to - from
    ensures s[from..to][a..b] == s[from + a..from + b]
  {
    var left, right := s[from..to][a..b], s[from + a..from + b];
    forall k | 0 <= k < b - a ensures left[k] == right[k] {
      assert left[k] == s[from..to][a + k] == s[from + (a + k)];
    }
  }

  function Flat(frames: seq<Frame>): seq<Byte> {
    if frames == [] then [] else Flat(frames[..|frames| - 1]) + frames[|frames| - 1].payload
  }

  /** `data` cut into pieces of `n` bytes; `k` frames have gone before. */
  function Frames(data: seq<Byte>, n: nat, k: nat): seq<Frame>
    requires n > 0
  {
    if |data| <= n then [Frame(if k == 0 then Single else Last, k % 16, data)]
    else [Frame(if k == 0 then First else Consecutive, k % 16, data[..n])] + Frames(data[n..], n, k + 1)
  }

  /** The frames of a report that is not finished yet. */
  predicate Begun(frames: seq<Frame>, n: nat) {
    forall i | 0 <= i < |frames| ::
      frames[i] == Frame(if i == 0 then First else Consecutive, i % 16, frames[i].payload)
      && |frames[i].payload| == n
  }

  /** What a finished report looks like: full frames of the right types, numbered modulo 16, and a last one
      with at least one byte unless there is nothing to send. */
  predicate Finished(frames: seq<Frame>, n: nat) {
    && frames != []
    && (forall i | 0 <= i < |frames| :: frames[i].number == i % 16)
    && (forall i | 0 <= i < |frames| - 1 :: |frames[i].payload| == n
                                            && frames[i].kind == if i == 0 then First else Consecutive)
    && var last := frames[|frames| - 1];
       && last.kind == (if |frames| == 1 then Single else Last)
       && |last.payload| <= n
       && (|frames| > 1 ==> |last.payload| > 0)
  }

  lemma FlatSnoc(frames: seq<Frame>, f: Frame)
    ensures Flat(frames + [f]) == Flat(frames) + f.payload
  {
    assert (frames + [f])[..|frames|] == frames;
  }

  lemma {:induction false} FlatCons(f: Frame, frames: seq<Frame>)
    ensures Flat([f] + frames) == f.payload + Flat(frames)
  {
    if frames == [] {
      assert [f] + frames == [f] && [f][..0] == [];
    } else {
      var init := frames[..|frames| - 1];
      FlatCons(f, init);
      assert ([f] + frames)[..|frames|] == [f] + init;
      assert f.payload + Flat(frames) == (f.payload + Flat(init)) + frames[|frames| - 1].payload;
    }
  }

  lemma FlatOne(f: Frame)
    ensures Flat([f]) == f.payload
  {
    assert [f][..0] == [];
  }

  /** Nothing gets lost in cutting. */
  lemma {:induction false} FramesAreFlat(data: seq<Byte>, n: nat, k: nat)
    requires n > 0
    ensures Flat(Frames(data, n, k)) == data
  {
    hide Flat;
    if |data| <= n {
      FlatOne(Frame(if k == 0 then Single else Last, k % 16, data));
    } else {
      var f, rest := Frame(if k == 0 then First else Consecutive, k % 16, data[..n]), Frames(data[n..], n, k + 1);
      assert Frames(data, n, k) == [f] + rest;
      hide Frames;
      FramesAreFlat(data[n..], n, k + 1);
      FlatCons(f, rest);
      assert data[..n] + data[n..] == data;
    }
  }

  lemma {:induction false} FramesFrom(data: seq<Byte>, n: nat, k: nat)
    requires n > 0 && (k > 0 ==> data != [])
    ensures var fs := Frames(data, n, k);
            && fs != []
            && (forall i | 0 <= i < |fs| :: fs[i].number == (k + i) % 16)
            && (forall i | 0 <= i < |fs| - 1 :: |fs[i].payload| == n
                                                && fs[i].kind == if k + i == 0 then First else Consecutive)
            && var last := fs[|fs| - 1];
               && last.kind == (if k + |fs| == 1 then Single else Last)
               && |last.payload| <= n && (k + |fs| > 1 ==> |last.payload| > 0)
  {
    if |data| > n {
      FramesFrom(data[n..], n, k + 1);
    }
  }

  lemma FramesAreFinished(data: seq<Byte>, n: nat)
    requires n > 0
    ensures Finished(Frames(data, n, 0), n)
  {
    FramesFrom(data, n, 0);
  }

  /** The full frames so far and a last one with the rest are exactly the frames of the whole. */
  lemma {:induction false} BegunThenLast(frames: seq<Frame>, n: nat, k: nat, rest: seq<Byte>)
    requires n > 0 && |rest| <= n && (frames != [] ==> rest != [])
    requires forall i | 0 <= i < |frames| ::
               frames[i] == Frame(if k + i == 0 then First else Consecutive, (k + i) % 16, frames[i].payload)
               && |frames[i].payload| == n
    ensures Frames(Flat(frames) + rest, n, k)
            == frames + [Frame(if k + |frames| == 0 then Single else Last, (k + |frames|) % 16, rest)]
  {
    if frames == [] {
      assert Flat(frames) + rest == rest;
    } else {
      var tail := frames[1..];
      assert frames == [frames[0]] + tail;
      FlatCons(frames[0], tail);
      if tail != [] {
        assert |Flat(tail)| + |rest| > 0;
      }
      var data := Flat(frames) + rest;
      assert data == frames[0].payload + (Flat(tail) + rest);
      assert data[n..] == Flat(tail) + rest && data[..n] == frames[0].payload;
      BegunThenLast(tail, n, k + 1, rest);
    }
  }

  lemma BegunSnoc(frames: seq<Frame>, n: nat, f: Frame)
    requires Begun(frames, n) && |f.payload| == n
    requires f.kind == (if frames == [] then First else Consecutive) && f.number == |frames| % 16
    ensures Begun(frames + [f], n) && Flat(frames + [f]) == Flat(frames) + f.payload
  {
    hide Flat;
    FlatSnoc(frames, f);
    forall i | 0 <= i <= |frames|
      ensures var g := (frames + [f])[i];
              g == Frame(if i == 0 then First else Consecutive, i % 16, g.payload) && |g.payload| == n
    {
      if i < |frames| {
        assert (frames + [f])[i] == frames[i];
      } else {
        assert (frames + [f])[i] == f;
      }
    }
  }

  /** An 8-bit counter counts modulo 16 in its lower half. */
  lemma LowerHalf(n: nat)
    ensures (n % 256) % 16 == n % 16
  {
    assert n == 16 * (16 * (n / 256)) + n % 256;
    SameRemainder(n % 256, 16 * (n / 256));
  }

  lemma SameRemainder(n: nat, k: nat)
    ensures (16 * k + n) % 16 == n % 16
  {
  }

  lemma BegunEnds(frames: seq<Frame>, n: nat, rest: seq<Byte>)
    requires n > 0 && Begun(frames, n) && |rest| <= n && (frames != [] ==> rest != [])
    ensures Frames(Flat(frames) + rest, n, 0)
            == frames + [Frame(if frames == [] then Single else Last, |frames| % 16, rest)]
  {
    BegunThenLast(frames, n, 0, rest);
  }
}
