/** The wire format of the ISO-TP transport: what isotp_fast.c puts into a CAN
    frame and how it reads one back (PCI bytes of ISO 15765-2:2016, section 9.6). */
module IsoTpFrame {

  type Byte = x: int | 0 <= x < 256

  /** The result codes handed to the callbacks; `Driver` stands for an error code of the CAN driver. */
  datatype Status = Ok | TimeoutA | TimeoutBs | TimeoutCr | WrongSn | InvalidFlow | UnexpectedPdu
                  | WaitOverrun | BufferOverflow | Error | Driver

  /** What can_send returns: 0, -EAGAIN or another error. */
  datatype Answer = Taken | Late | Denied

  /** The compile-time and per-binding options of one link. `dlen` is CAN_MAX_DLEN;
      both peers use the same block size and separation time. */
  datatype Config = Config(dlen: nat, bs: Byte, stmin: Byte, wftMax: nat, maxPackets: nat)
  {
    predicate Valid() { dlen == 8 || dlen == 64 }

    predicate Fd() { dlen == 64 }

    /** The longest message that isotp_fast_send puts into a single frame. */
    function SfMax(): nat { if Fd() then 62 else 7 }
  }

  const MAX_LEN: nat := 4095

  /** `data` is the whole data array of struct can_frame, `length` what
      can_dlc_to_bytes makes of its DLC. */
  datatype CanFrame = CanFrame(data: seq<Byte>, length: nat)

  predicate WellFormed(cfg: Config, f: CanFrame) {
    cfg.Valid() && |f.data| == cfg.dlen && 1 <= f.length <= cfg.dlen
  }

  /** The payload sizes of CAN FD. */
  predicate DlcSize(n: nat) { n <= 8 || n in {12, 16, 20, 24, 32, 48, 64} }

  /** can_dlc_to_bytes(can_bytes_to_dlc(n)): the smallest CAN FD size that holds n bytes. */
  function DlcLength(n: nat): (r: nat)
    requires n <= 64
    ensures n <= r <= 64 && DlcSize(r)
    ensures forall m | n <= m && DlcSize(m) :: r <= m
    ensures n <= 8 ==> r == n
  {
    if n <= 8 then n
    else if n <= 12 then 12
    else if n <= 16 then 16
    else if n <= 20 then 20
    else if n <= 24 then 24
    else if n <= 32 then 32
    else if n <= 48 then 48
    else 64
  }

  const TYPE_SF := 0
  const TYPE_FF := 1
  const TYPE_CF := 2
  const TYPE_FC := 3

  function PciType(f: CanFrame): Byte
    requires |f.data| > 0
  {
    f.data[0] / 16
  }

  datatype FlowStatus = Cts | Wait | Overflow | InvalidFs

  function FsNibble(fs: FlowStatus): Byte {
    match fs case Cts => 0 case Wait => 1 case Overflow => 2 case InvalidFs => 15
  }

  function FlowStatusOf(f: CanFrame): FlowStatus
    requires |f.data| > 0
  {
    match f.data[0] % 16 case 0 => Cts case 1 => Wait case 2 => Overflow case _ => InvalidFs
  }

  /** A data array starts out uninitialised: `pad` is what happened to be there. */
  function Fill(prefix: seq<Byte>, pad: seq<Byte>): (data: seq<Byte>)
    requires |prefix| <= |pad|
    ensures |data| == |pad|
    ensures data[..|prefix|] == prefix
  {
    prefix + pad[|prefix|..]
  }

  /** The frame isotp_fast_send builds for a short message. */
  function SingleFrame(cfg: Config, msg: seq<Byte>, pad: seq<Byte>): (f: CanFrame)
    requires cfg.Valid() && |pad| == cfg.dlen && |msg| <= cfg.SfMax()
    ensures WellFormed(cfg, f)
  {
    var header: seq<Byte> := if cfg.Fd() && |msg| > 7 then [0, |msg|] else [|msg|];
    CanFrame(Fill(header + msg, pad), DlcLength(|header| + |msg|))
  }

  function FirstFrame(cfg: Config, len: nat, payload: seq<Byte>, pad: seq<Byte>): (f: CanFrame)
    requires cfg.Valid() && |pad| == cfg.dlen && len <= MAX_LEN && |payload| == cfg.dlen - 2
    ensures WellFormed(cfg, f)
  {
    CanFrame(Fill([16 + len / 256, len % 256] + payload, pad), cfg.dlen)
  }

  function ConsecutiveFrame(cfg: Config, sn: nat, payload: seq<Byte>, pad: seq<Byte>): (f: CanFrame)
    requires cfg.Valid() && |pad| == cfg.dlen && sn < 16 && |payload| <= cfg.dlen - 1
    ensures WellFormed(cfg, f)
  {
    CanFrame(Fill([32 + sn] + payload, pad), DlcLength(1 + |payload|))
  }

  /** receive_send_fc: the frame is zero-initialised there. */
  function FlowControl(cfg: Config, fs: FlowStatus): (f: CanFrame)
    requires cfg.Valid()
    ensures WellFormed(cfg, f) && PciType(f) == TYPE_FC
    ensures FlowStatusOf(f) == fs && f.data[1] == cfg.bs && f.data[2] == cfg.stmin
  {
    CanFrame(Fill([48 + FsNibble(fs), cfg.bs, cfg.stmin], seq(cfg.dlen, _ => 0)), 3)
  }

  function BigEndian32(d: seq<Byte>): nat
    requires |d| >= 4
  {
    ((d[0] as int * 256 + d[1]) * 256 + d[2]) * 256 + d[3]
  }

  /** receive_get_ff_length, as stored into the 12-bit field rem_len. */
  function FfLength(f: CanFrame): (r: nat)
    requires |f.data| >= 4
    ensures r <= MAX_LEN
  {
    var short := (f.data[0] as int % 16) * 256 + f.data[1];
    (if short != 0 then short else BigEndian32(f.data)) % 4096
  }

  /** receive_get_sf_length: the length and the index of the first payload byte. */
  function SfLength(cfg: Config, f: CanFrame): (r: (Byte, nat))
    requires |f.data| >= 2
    ensures r.1 == 1 || r.1 == 2
  {
    var short := f.data[0] % 16;
    if cfg.Fd() && short == 0 then (f.data[1], 2) else (short, 1)
  }

  /** The bytes that `k` full consecutive frames carry. */
  function Span(cfg: Config, k: nat): nat
    requires cfg.Valid()
  {
    if k == 0 then 0 else Span(cfg, k - 1) + cfg.dlen - 1
  }

  lemma {:induction false} SpanMonotone(cfg: Config, j: nat, k: nat)
    requires cfg.Valid() && j <= k
    ensures Span(cfg, j) <= Span(cfg, k)
    ensures Span(cfg, k) - Span(cfg, j) >= k - j
  {
    if j < k {
      SpanMonotone(cfg, j, k - 1);
    }
  }

  /** The offset in a message of `len` bytes that is reached after the first frame and `j`
      consecutive frames. */
  function Offset(cfg: Config, len: nat, j: nat): (o: nat)
    requires cfg.Valid()
    ensures o <= len
  {
    var o := cfg.dlen - 2 + Span(cfg, j);
    if o < len then o else len
  }

  /** A message that goes out as a first frame and consecutive frames. */
  predicate LongMessage(cfg: Config, msg: seq<Byte>) {
    cfg.Valid() && cfg.SfMax() < |msg| <= MAX_LEN
  }

  /** The bytes that the j-th consecutive frame of a message carries. */
  function Slice(cfg: Config, msg: seq<Byte>, j: nat): seq<Byte>
    requires cfg.Valid() && j >= 1 && Offset(cfg, |msg|, j - 1) <= Offset(cfg, |msg|, j)
  {
    msg[Offset(cfg, |msg|, j - 1)..Offset(cfg, |msg|, j)]
  }

  predicate IsFirst(cfg: Config, msg: seq<Byte>, f: CanFrame) {
    && LongMessage(cfg, msg)
    && WellFormed(cfg, f) && f.length == cfg.dlen
    && PciType(f) == TYPE_FF
    && FfLength(f) == |msg|
    && f.data[2..] == msg[..cfg.dlen - 2]
  }

  /** f is the j-th consecutive frame of msg, whatever lies beyond its payload. */
  predicate IsConsecutive(cfg: Config, msg: seq<Byte>, j: nat, f: CanFrame) {
    && cfg.Valid() && j >= 1
    && Offset(cfg, |msg|, j - 1) < Offset(cfg, |msg|, j)
    && Offset(cfg, |msg|, j) - Offset(cfg, |msg|, j - 1) <= cfg.dlen - 1
    && WellFormed(cfg, f)
    && PciType(f) == TYPE_CF
    && f.data[0] % 16 == j % 16
    && var payload := Slice(cfg, msg, j);
       f.length == DlcLength(1 + |payload|) && f.data[1..1 + |payload|] == payload
  }

  predicate IsSingle(cfg: Config, msg: seq<Byte>, f: CanFrame) {
    && cfg.Valid() && |msg| <= cfg.SfMax()
    && WellFormed(cfg, f)
    && PciType(f) == TYPE_SF
    && var (len, index) := SfLength(cfg, f);
       len == |msg| && index + len <= 64 && f.length == DlcLength(index + len) && f.data[index..index + len] == msg
  }

  lemma FirstFrameIsFirst(cfg: Config, msg: seq<Byte>, pad: seq<Byte>)
    requires LongMessage(cfg, msg) && |pad| == cfg.dlen
    ensures IsFirst(cfg, msg, FirstFrame(cfg, |msg|, msg[..cfg.dlen - 2], pad))
  {
    var f := FirstFrame(cfg, |msg|, msg[..cfg.dlen - 2], pad);
    assert f.data == [16 + |msg| / 256, |msg| % 256] + msg[..cfg.dlen - 2];
  }

  lemma ConsecutiveFrameIsConsecutive(cfg: Config, msg: seq<Byte>, j: nat, pad: seq<Byte>)
    requires LongMessage(cfg, msg) && |pad| == cfg.dlen && j >= 1
    requires Offset(cfg, |msg|, j - 1) < |msg|
    ensures Offset(cfg, |msg|, j - 1) < Offset(cfg, |msg|, j) <= Offset(cfg, |msg|, j - 1) + cfg.dlen - 1
    ensures IsConsecutive(cfg, msg, j, ConsecutiveFrame(cfg, j % 16, Slice(cfg, msg, j), pad))
  {
    var payload := Slice(cfg, msg, j);
    var f := ConsecutiveFrame(cfg, j % 16, payload, pad);
    assert f.data[..1 + |payload|] == [32 + j % 16] + payload;
    assert f.data[1..1 + |payload|] == f.data[..1 + |payload|][1..];
  }

  /** A single frame reads back as the message it was built from, except that an empty
      message takes the CAN FD length escape and then depends on a byte nobody wrote. */
  lemma SingleFrameIsSingle(cfg: Config, msg: seq<Byte>, pad: seq<Byte>)
    requires cfg.Valid() && |pad| == cfg.dlen && |msg| <= cfg.SfMax()
    ensures IsSingle(cfg, msg, SingleFrame(cfg, msg, pad)) <==> (cfg.Fd() ==> msg != [])
  {
    var f := SingleFrame(cfg, msg, pad);
    var header: seq<Byte> := if cfg.Fd() && |msg| > 7 then [0, |msg|] else [|msg|];
    assert f.data[..|header| + |msg|] == header + msg;
    assert f.data[|header|..|header| + |msg|] == (header + msg)[|header|..];
    assert f.data[0] == f.data[..|header| + |msg|][0];
    if |header| == 2 {
      assert f.data[1] == f.data[..|header| + |msg|][1];
    }
  }
}
