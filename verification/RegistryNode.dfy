/** The nodes of the registry and the identities it files them under. */
module RegistryNode {
  import opened IntrusiveLinkedList
  import opened Wrappers

  const BUCKETS: nat := 8

  class Node {
    const id: nat
    const parentId: nat
    /** What tryCastTo tells: the proxy of a record member, a node with children, a record. */
    const isMember: bool
    const hasChildren: bool
    const isRecord: bool
    const list: Link<Node>
    const child: Link<Node>
    const kids: List<Node>

    constructor (id: nat, parentId: nat, isMember: bool, hasChildren: bool, isRecord: bool)
      requires id < 0x10000 && parentId < 0x10000
      ensures this.id == id && this.parentId == parentId
      ensures this.isMember == isMember && this.hasChildren == hasChildren && this.isRecord == isRecord
      ensures Sound() && Unlinked() && fresh(list) && fresh(child) && fresh(kids)
    {
      this.id, this.parentId := id, parentId;
      this.isMember, this.hasChildren, this.isRecord := isMember, hasChildren, isRecord;
      list := new Link();
      child := new Link();
      kids := new List();
      new;
      list.container := Some(this);
      child.container := Some(this);
      kids.container := Some(this);
    }

    /** Links and list are members of this node and of no other. */
    ghost predicate Sound()
      reads list`container, child`container, kids`container
    {
      && id < 0x10000 && parentId < 0x10000 && list != child
      && list.container == Some(this) && child.container == Some(this) && kids.container == Some(this)
    }

    ghost predicate Unlinked()
      reads list, child, kids, kids.contents
    {
      list.next == null && child.next == null && kids.Valid() && kids.contents == []
    }
  }

  // ----- identities

  /** The identity of a record member, scoped by its parent. */
  function CalculateId(id: nat, parentId: nat): nat {
    (parentId % 255) * 0x10000 + id + 1
  }

  function EffectiveId(n: Node): nat {
    if n.isMember then CalculateId(n.id, n.parentId) else n.id
  }

  function Bucket(id: nat): (b: nat)
    ensures b < BUCKETS
  {
    id % BUCKETS
  }

  predicate Names(m: Node, p: Node) { m.parentId == p.id }

  /** A record member is never in the bucket of its own id, which is why no search by id meets it. */
  lemma MembersAreElsewhere(id: nat, parentId: nat)
    ensures Bucket(CalculateId(id, parentId)) == Bucket(id + 1) != Bucket(id)
  {
    var high := (parentId % 255) * 0x2000;
    assert CalculateId(id, parentId) == high * 8 + (id + 1);
    ModuloOfSum(high, id + 1);
    ModuloOfNext(id);
  }

  lemma ModuloOfSum(a: nat, b: nat)
    ensures (a * 8 + b) % 8 == b % 8
  {
  }

  lemma ModuloOfNext(a: nat)
    ensures (a + 1) % 8 != a % 8
  {
  }

  /** Two nodes count as duplicates in exactly these cases. Members with the same id of different records are not
      duplicates in the data model, and neither are a member and an ordinary node. */
  lemma DuplicatesExactlyIf(m: Node, n: Node)
    requires m.id < 0x10000 && n.id < 0x10000
    ensures EffectiveId(m) == EffectiveId(n) <==>
              if m.isMember && n.isMember then m.id == n.id && m.parentId % 255 == n.parentId % 255
              else if m.isMember then m.id + 1 == n.id && m.parentId % 255 == 0
              else if n.isMember then n.id + 1 == m.id && n.parentId % 255 == 0
              else m.id == n.id
  {
  }

  /** The check that keeps a node from becoming its own child also stops these record members from becoming children
      of their record. */
  lemma OwnParentExactlyIf(n: Node)
    requires n.id < 0x10000 && n.parentId < 0x10000
    ensures n.parentId == EffectiveId(n) <==>
              if n.isMember then n.parentId % 255 == 0 && n.id + 1 == n.parentId else n.id == n.parentId
  {
  }
}
