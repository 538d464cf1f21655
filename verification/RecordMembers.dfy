/** The record members of the repository's own test: an array of records whose elements have a member in turn. */
module RecordMembers {
  import opened IntrusiveLinkedList
  import opened Registry
  import opened RegistryHistory
  import opened RegistryLists
  import opened RegistryNode
  import opened Wrappers

  /** "cells", an array of records, and "voltage", the member of its elements. */
  predicate AreMembers(b: BuiltIn, cells: Node, voltage: Node) {
    && cells.id == 0x510 && cells.parentId == 0x500 && cells.isMember && cells.hasChildren
    && voltage.id == 0x511 && voltage.parentId == 0x510 && voltage.isMember && !voltage.hasChildren
    && cells != b.root && cells != b.metadata && voltage != b.root && voltage != b.metadata
  }

  function Nodes(b: BuiltIn, cells: Node, voltage: Node): set<Node> { {b.root, b.metadata, cells, voltage} }

  lemma Identities(b: BuiltIn, cells: Node, voltage: Node)
    requires AreMembers(b, cells, voltage) && Identified(b, b.Nodes())
    ensures DistinctParents(Nodes(b, cells, voltage)) && UniqueIds(Nodes(b, cells, voltage)) && Orderly(b, [])
    ensures !Finds(cells, voltage) && Names(voltage, cells) && !Names(cells, cells)
    ensures forall m <- b.Nodes() :: !Names(m, cells)
    ensures forall p <- Nodes(b, cells, voltage) :: !Finds(p, cells) && !Finds(p, voltage)
  {
  }

  method NewMember(r: Registry, ghost nodes: set<Node>, id: nat, parentId: nat, hasChildren: bool) returns (n: Node)
    requires r.Valid([], nodes) && id < 0x10000 && parentId < 0x10000
    ensures fresh(n) && n.id == id && n.parentId == parentId && n.isMember && n.hasChildren == hasChildren
    ensures r.Valid([], nodes + {n})
  {
    n := new Node(id, parentId, true, hasChildren, false);
    hide Filed, Tree, Follows, Legal, DistinctParents, List.Valid, About, Present;
    r.NewNode([], nodes, n);
  }

  lemma BuiltInIds(r: Registry, h: seq<Event>, nodes: set<Node>)
    requires r.Valid(h, nodes)
    ensures Identified(r.builtIn, r.builtIn.Nodes())
  {
  }

  /** A registry with these two nodes, neither of them registered yet. */
  method NewRegistry() returns (r: Registry, cells: Node, voltage: Node)
    ensures IsRecord(r, Nodes(r.builtIn, cells, voltage), cells, voltage)
    ensures r.Valid([], Nodes(r.builtIn, cells, voltage))
  {
    hide Registry.Valid;
    r := new Registry();
    ghost var nodes := r.builtIn.Nodes();
    cells := NewMember(r, nodes, 0x510, 0x500, true);
    voltage := NewMember(r, nodes + {cells}, 0x511, 0x510, false);
    assert nodes + {cells} + {voltage} == Nodes(r.builtIn, cells, voltage);
    BuiltInIds(r, [], nodes + {cells} + {voltage});
  }

  /** registerNode in the ordinary case: nothing that was there before is in the way. */
  method Add(r: Registry, ghost h: seq<Event>, ghost nodes: set<Node>, node: Node)
    requires r.Valid(h, nodes) && Orderly(r.builtIn, h) && DistinctParents(nodes)
    requires node in nodes - Present(r.builtIn, h)
    requires forall n <- Present(r.builtIn, h) :: EffectiveId(n) != EffectiveId(node)
    requires node.hasChildren ==> Outgrown(r.builtIn, h, node)
    modifies r.nodeMap`head, r.nodeMap`tail, r.nodeMap`contents, ListLinks(nodes)`next
    modifies KidLists(nodes)`head, KidLists(nodes)`tail, KidLists(nodes)`contents, ChildLinks(nodes)`next
    ensures r.Valid(h + [Joined(node)], nodes)
  {
    ghost var parent: Option<Node> := None;
    if p :| p in Present(r.builtIn, h) && Finds(p, node) {
      parent := Some(p);
    }
    IsProper(r, h, nodes, node, parent);
    hide Registry.Valid, StaysProper, Outgrown;
    var ok, found := r.RegisterNode(node, h, nodes);
    assert found == parent;
  }

  lemma IsProper(r: Registry, h: seq<Event>, nodes: set<Node>, node: Node, parent: Option<Node>)
    requires r.Valid(h, nodes) && Orderly(r.builtIn, h) && DistinctParents(nodes)
    requires node in nodes - Present(r.builtIn, h) && (node.hasChildren ==> Outgrown(r.builtIn, h, node))
    requires if parent.Some? then parent.value in Present(r.builtIn, h) && Finds(parent.value, node)
             else forall p <- Present(r.builtIn, h) :: !Finds(p, node)
    ensures ParentIs(Present(r.builtIn, h), node, parent)
    ensures StaysProper(Present(r.builtIn, h) + {node}, nodes, node, parent)
  {
    hide Indexed, Tree, StaysProper, Outgrown;
    assert UniqueIds(Present(r.builtIn, h));
    ProperExactlyIf(r.builtIn, h, nodes, node, parent);
  }

  // ----- the record is built, destroyed and built again

  /** The elements are constructed before the array that holds them. */
  function Built(cells: Node, voltage: Node): seq<Event> { [Joined(voltage), Joined(cells)] }

  /** They are destroyed after it, and constructed again. */
  function Rebuilding(cells: Node, voltage: Node): seq<Event> {
    Built(cells, voltage) + [Left(cells)] + [Left(voltage)] + [Joined(voltage)]
  }

  lemma StoryOfBuilding(b: BuiltIn, cells: Node, voltage: Node)
    requires AreMembers(b, cells, voltage) && Identified(b, b.Nodes())
    ensures var h := [Joined(voltage)];
            Present(b, h) == b.Nodes() + {voltage} && Children(b, h, cells) == {} && Orderly(b, h)
    ensures Present(b, []) == b.Nodes()
    ensures var h := Built(cells, voltage);
            Present(b, h) == Nodes(b, cells, voltage) && Children(b, h, cells) == {voltage} && Orderly(b, h)
    ensures Orderly(b, [])
  {
    Identities(b, cells, voltage);
    Joining(b, [], voltage, cells);
    Joining(b, [Joined(voltage)], cells, cells);
    assert [] + [Joined(voltage)] == [Joined(voltage)] && [Joined(voltage)] + [Joined(cells)] == Built(cells, voltage);
    assert Namers(b.Nodes() + {voltage} + {cells}, cells) == {voltage};
  }

  lemma StoryOfRebuilding(b: BuiltIn, cells: Node, voltage: Node)
    requires AreMembers(b, cells, voltage) && Identified(b, b.Nodes())
    ensures var h := Rebuilding(cells, voltage);
            && Present(b, h[..3]) == b.Nodes() + {voltage} && Present(b, h[..4]) == b.Nodes()
            && Present(b, h) == b.Nodes() + {voltage} && Children(b, h, cells) == {voltage}
            && Orderly(b, h) && Orderly(b, h[..4])
  {
    var h := Rebuilding(cells, voltage);
    Identities(b, cells, voltage);
    StoryOfBuilding(b, cells, voltage);
    assert h[..2] == Built(cells, voltage) && h[..3] == h[..2] + [Left(cells)];
    assert h[..4] == h[..3] + [Left(voltage)] && h == h[..4] + [Joined(voltage)];
    Leaving(b, h[..2], cells, cells);
    Leaving(b, h[..3], voltage, cells);
    Joining(b, h[..4], voltage, cells);
    assert h[..4][..3] == h[..3] && h[..3][..2] == h[..2];
  }

  lemma {:induction false} AllTheSame<T>(s: seq<T>, x: T)
    requires Distinct(s) && s != [] && forall y <- s :: y == x
    ensures s == [x]
  {
    assert s[|s| - 1] in s && s[0] in s;
  }

  lemma OnlyKid(r: Registry, h: seq<Event>, nodes: set<Node>, p: Node, m: Node)
    requires r.Valid(h, nodes) && DistinctParents(nodes) && p in nodes && m in nodes
    requires Children(r.builtIn, h, p) == {m}
    ensures p.kids.contents == [m.child] && p.kids.tail == m.child
  {
    assert p.kids.Valid();
    var kids := p.kids.contents;
    forall l <- kids ensures l == m.child {
      var n :| n in nodes && n.child == l;
      assert n in Children(r.builtIn, h, p);
    }
    AllTheSame(kids, m.child);
  }

  lemma FirstTime(b: BuiltIn, h: seq<Event>, node: Node, m: Node)
    requires Children(b, h, node) == {} && m in Present(b, h) && Names(m, node)
    ensures Outgrown(b, h, node)
  {
  }

  ghost predicate IsRecord(r: Registry, nodes: set<Node>, cells: Node, voltage: Node) {
    && AreMembers(r.builtIn, cells, voltage) && nodes == Nodes(r.builtIn, cells, voltage)
    && Identified(r.builtIn, r.builtIn.Nodes())
  }

  lemma Facts(r: Registry, nodes: set<Node>, cells: Node, voltage: Node)
    requires IsRecord(r, nodes, cells, voltage)
    ensures DistinctParents(nodes) && nodes == r.builtIn.Nodes() + {cells} + {voltage} && cells != voltage
    ensures cells !in r.builtIn.Nodes() && voltage !in r.builtIn.Nodes() && Names(voltage, cells)
    ensures AreMembers(r.builtIn, cells, voltage) && Identified(r.builtIn, r.builtIn.Nodes())
  {
  }

  method AddVoltage(r: Registry, ghost nodes: set<Node>, ghost h: seq<Event>, cells: Node, voltage: Node)
    requires IsRecord(r, nodes, cells, voltage) && r.Valid(h, nodes)
    requires Orderly(r.builtIn, h) && r.builtIn.Nodes() <= Present(r.builtIn, h) <= nodes - {voltage}
    modifies r.nodeMap`head, r.nodeMap`tail, r.nodeMap`contents, ListLinks(nodes)`next
    modifies KidLists(nodes)`head, KidLists(nodes)`tail, KidLists(nodes)`contents, ChildLinks(nodes)`next
    ensures r.Valid(h + [Joined(voltage)], nodes)
  {
    Identities(r.builtIn, cells, voltage);
    hide Registry.Valid, Present;
    Add(r, h, nodes, voltage);
  }

  method AddCells(r: Registry, ghost nodes: set<Node>, ghost h: seq<Event>, cells: Node, voltage: Node)
    requires IsRecord(r, nodes, cells, voltage) && r.Valid(h, nodes)
    requires Orderly(r.builtIn, h) && r.builtIn.Nodes() <= Present(r.builtIn, h) <= nodes - {cells}
    requires Outgrown(r.builtIn, h, cells)
    modifies r.nodeMap`head, r.nodeMap`tail, r.nodeMap`contents, ListLinks(nodes)`next
    modifies KidLists(nodes)`head, KidLists(nodes)`tail, KidLists(nodes)`contents, ChildLinks(nodes)`next
    ensures r.Valid(h + [Joined(cells)], nodes)
  {
    Identities(r.builtIn, cells, voltage);
    hide Registry.Valid, Present, Outgrown;
    Add(r, h, nodes, cells);
  }

  method Build(r: Registry, ghost nodes: set<Node>, cells: Node, voltage: Node)
    requires IsRecord(r, nodes, cells, voltage) && r.Valid([], nodes)
    modifies r.nodeMap`head, r.nodeMap`tail, r.nodeMap`contents, ListLinks(nodes)`next
    modifies KidLists(nodes)`head, KidLists(nodes)`tail, KidLists(nodes)`contents, ChildLinks(nodes)`next
    ensures r.Valid(Built(cells, voltage), nodes) && cells.kids.contents == [voltage.child]
  {
    ghost var h := [Joined(voltage)];
    assert h == [] + [Joined(voltage)] && Built(cells, voltage) == h + [Joined(cells)];
    Facts(r, nodes, cells, voltage);
    StoryOfBuilding(r.builtIn, cells, voltage);
    hide Registry.Valid, Children, Orderly, Present, Outgrown, IsRecord, DistinctParents, AreMembers, Identified, Names;
    hide Built, BuiltIn.Nodes;
    AddVoltage(r, nodes, [], cells, voltage);
    FirstTime(r.builtIn, h, cells, voltage);
    AddCells(r, nodes, h, cells, voltage);
    OnlyKid(r, h + [Joined(cells)], nodes, cells, voltage);
  }

  /** A record that is built, destroyed and built again: the array has the member of its elements as its child, as it
      should, and then the list of its children is a cycle. */
  method BuildTwice(r: Registry, ghost nodes: set<Node>, cells: Node, voltage: Node)
    returns (ghost once: seq<Link<Node>>)
    requires IsRecord(r, nodes, cells, voltage) && r.Valid([], nodes)
    modifies r.nodeMap`head, r.nodeMap`tail, r.nodeMap`contents, ListLinks(nodes)`next
    modifies KidLists(nodes)`head, KidLists(nodes)`tail, KidLists(nodes)`contents, ChildLinks(nodes)`next
    ensures once == [voltage.child] && Cyclic(cells)
  {
    Build(r, nodes, cells, voltage);
    once := cells.kids.contents;
    DestroyAndBuild(r, nodes, cells, voltage);
  }

  method DestroyAndBuild(r: Registry, ghost nodes: set<Node>, cells: Node, voltage: Node)
    requires IsRecord(r, nodes, cells, voltage) && r.Valid(Built(cells, voltage), nodes)
    modifies r.nodeMap`head, r.nodeMap`tail, r.nodeMap`contents, ListLinks(nodes)`next
    modifies KidLists(nodes)`head, KidLists(nodes)`tail, KidLists(nodes)`contents, ChildLinks(nodes)`next
    ensures Cyclic(cells)
  {
    ghost var h := Rebuilding(cells, voltage);
    StoryOfRebuilding(r.builtIn, cells, voltage);
    assert h[..2] == Built(cells, voltage) && h[..3] == h[..2] + [Left(cells)];
    assert h[..4] == h[..3] + [Left(voltage)] && h == h[..4] + [Joined(voltage)];
    hide Registry.Valid, Children, Orderly, Present, UniqueIds, Cyclic;
    r.UnregisterNode(cells, h[..2], nodes);
    r.UnregisterNode(voltage, h[..3], nodes);
    AddVoltage(r, nodes, h[..4], cells, voltage);
    AddAgain(r, nodes, h, cells, voltage);
  }

  method AddAgain(r: Registry, ghost nodes: set<Node>, ghost h: seq<Event>, cells: Node, voltage: Node)
    requires IsRecord(r, nodes, cells, voltage) && r.Valid(h, nodes)
    requires Present(r.builtIn, h) == r.builtIn.Nodes() + {voltage} && Children(r.builtIn, h, cells) == {voltage}
    modifies r.nodeMap`head, r.nodeMap`tail, r.nodeMap`contents, ListLinks(nodes)`next
    modifies KidLists(nodes)`head, KidLists(nodes)`tail, KidLists(nodes)`contents, ChildLinks(nodes)`next
    ensures Cyclic(cells)
  {
    Identities(r.builtIn, cells, voltage);
    OnlyKid(r, h, nodes, cells, voltage);
    hide Registry.Valid, Present, Children, Cyclic;
    var ok, _ := r.RegisterNode(cells, h, nodes);
  }

  /** In the other order the array never gets its child, although both are registered. */
  method BuildLate(r: Registry, ghost nodes: set<Node>, cells: Node, voltage: Node)
    requires IsRecord(r, nodes, cells, voltage) && r.Valid([], nodes)
    modifies r.nodeMap`head, r.nodeMap`tail, r.nodeMap`contents, ListLinks(nodes)`next
    modifies KidLists(nodes)`head, KidLists(nodes)`tail, KidLists(nodes)`contents, ChildLinks(nodes)`next
    ensures r.Valid([Joined(cells), Joined(voltage)], nodes) && voltage.child !in cells.kids.contents
  {
    ghost var h := [Joined(cells)];
    assert h == [] + [Joined(cells)] && [Joined(cells), Joined(voltage)] == h + [Joined(voltage)];
    Facts(r, nodes, cells, voltage);
    StoryOfBuildingLate(r, nodes, cells, voltage);
    hide Registry.Valid, Children, Orderly, Present, Outgrown, IsRecord, DistinctParents, AreMembers, Identified, Names;
    hide Built, BuiltIn.Nodes;
    AddCells(r, nodes, [], cells, voltage);
    AddVoltage(r, nodes, h, cells, voltage);
    NoKid(r, h + [Joined(voltage)], nodes, cells, voltage);
  }

  lemma StoryOfBuildingLate(r: Registry, nodes: set<Node>, cells: Node, voltage: Node)
    requires IsRecord(r, nodes, cells, voltage) && r.Valid([], nodes)
    ensures Present(r.builtIn, []) == r.builtIn.Nodes()
    ensures Present(r.builtIn, [Joined(cells)]) == r.builtIn.Nodes() + {cells}
    ensures Children(r.builtIn, [Joined(cells), Joined(voltage)], cells) == {}
    ensures Orderly(r.builtIn, []) && Orderly(r.builtIn, [Joined(cells)]) && Outgrown(r.builtIn, [], cells)
  {
    var b := r.builtIn;
    Identities(b, cells, voltage);
    Joining(b, [], cells, cells);
    Joining(b, [Joined(cells)], voltage, cells);
    assert [] + [Joined(cells)] == [Joined(cells)];
    assert [Joined(cells)] + [Joined(voltage)] == [Joined(cells), Joined(voltage)];
    assert Namers(b.Nodes() + {cells}, cells) == {};
  }

  lemma NoKid(r: Registry, h: seq<Event>, nodes: set<Node>, p: Node, m: Node)
    requires r.Valid(h, nodes) && DistinctParents(nodes) && p in nodes && m in nodes && m !in Children(r.builtIn, h, p)
    ensures m.child !in p.kids.contents
  {
  }
}
