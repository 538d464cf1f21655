/** ThingSet's 29-bit CAN identifiers, and the two ways the code base has of finding the identifier of a
    reply. */
module CanId {

  const SOURCE_MASK: bv32 := 0x0000_00FF
  const TARGET_MASK: bv32 := 0x0000_FF00
  const PRIORITY_MASK: bv32 := 0x1C00_0000
  const BRIDGE_MASK: bv32 := 0x00FF_0000

  function Source(id: bv32): bv32 { id & SOURCE_MASK }

  function Target(id: bv32): bv32 { (id & TARGET_MASK) >> 8 }

  function WithSource(id: bv32, value: bv32): bv32 { (id & !SOURCE_MASK) | (value & SOURCE_MASK) }

  function WithTarget(id: bv32, value: bv32): bv32 { (id & !TARGET_MASK) | ((value << 8) & TARGET_MASK) }

  /** Setting one address field stores the byte there and leaves the other one alone. */
  lemma SettingSource(id: bv32, value: bv32)
    requires value & !SOURCE_MASK == 0
    ensures Source(WithSource(id, value)) == value
    ensures Target(WithSource(id, value)) == Target(id)
  {
  }

  lemma SettingTarget(id: bv32, value: bv32)
    requires value & !SOURCE_MASK == 0
    ensures Target(WithTarget(id, value)) == value
    ensures Source(WithTarget(id, value)) == Source(id)
  {
  }

  /** What CanID::getReplyId makes of an identifier. */
  function ReplyId(id: bv32): bv32 { WithSource(WithTarget(id, Source(id)), Target(id)) }

  /** isotp_fast_get_tx_addr_fixed: the address that flow control for messages on `id` goes to. */
  function FixedReply(id: bv32): bv32 {
    var sa := (id & TARGET_MASK) >> 8;
    var ta := id & SOURCE_MASK;
    (id & PRIORITY_MASK) | (id & BRIDGE_MASK) | sa | (ta << 8)
  }

  /** An identifier of a request or response: message type 0, 29 bits. */
  predicate RequestResponse(id: bv32) { id & 0xE300_0000 == 0 }

  lemma ReplyIdIsAnInvolution(id: bv32)
    ensures ReplyId(ReplyId(id)) == id
    ensures Source(ReplyId(id)) == Target(id) && Target(ReplyId(id)) == Source(id)
  {
  }

  const KEPT: bv32 := 0x1CFF_FFFF

  /** The transport's own swap is the other one without the message type. */
  lemma FixedIsMasked(id: bv32)
    ensures FixedReply(id) == ReplyId(id) & KEPT
  {
  }

  lemma ReplyKeepsType(id: bv32)
    ensures ReplyId(id) & 0xE300_0000 == id & 0xE300_0000
  {
  }

  lemma Masked(x: bv32)
    ensures x & KEPT == x <==> x & 0xE300_0000 == 0
    ensures (x & KEPT) & 0xE300_0000 == 0
  {
  }

  lemma FixedTwice(id: bv32)
    ensures FixedReply(FixedReply(id)) == id & KEPT
  {
  }

  /** So the two agree, and it undoes itself, exactly on request and response identifiers. */
  lemma SwapsAgree(id: bv32)
    ensures FixedReply(id) == ReplyId(id) <==> RequestResponse(id)
    ensures FixedReply(FixedReply(id)) == id <==> RequestResponse(id)
    ensures RequestResponse(FixedReply(id))
  {
    hide FixedReply, ReplyId;
    FixedIsMasked(id);
    ReplyKeepsType(id);
    Masked(ReplyId(id));
    FixedTwice(id);
    Masked(id);
  }

  /** Different messages are answered on different identifiers. */
  lemma RepliesAreDistinct(a: bv32, b: bv32)
    requires RequestResponse(a) && RequestResponse(b) && a != b
    ensures FixedReply(a) != FixedReply(b)
  {
    SwapsAgree(a);
    SwapsAgree(b);
  }

  /** The class CanID: an identifier and the mask of the fields that have been set. */
  class CanID {
    var id: bv32
    var mask: bv32

    constructor (id: bv32, mask: bv32)
      ensures this.id == id && this.mask == mask
    {
      this.id, this.mask := id, mask;
    }

    method SetSource(value: bv32)
      modifies this
      ensures id == WithSource(old(id), value) && mask == old(mask) | SOURCE_MASK
    {
      id := (id & !SOURCE_MASK) | (value & SOURCE_MASK);
      mask := mask | SOURCE_MASK;
    }

    method SetTarget(value: bv32)
      modifies this
      ensures id == WithTarget(old(id), value) && mask == old(mask) | TARGET_MASK
    {
      id := (id & !TARGET_MASK) | ((value << 8) & TARGET_MASK);
      mask := mask | TARGET_MASK;
    }

    method GetReplyId() returns (reply: CanID)
      ensures fresh(reply) && reply.id == ReplyId(id)
      ensures reply.mask == mask | SOURCE_MASK | TARGET_MASK
    {
      reply := new CanID(id, mask);
      reply.SetTarget(id & SOURCE_MASK);
      reply.SetSource((id & TARGET_MASK) >> 8);
    }
  }
}
