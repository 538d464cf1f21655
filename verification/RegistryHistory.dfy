/** Which nodes are registered and whose children they are, as a function of what has been registered and
    unregistered. */
module RegistryHistory {
  import opened RegistryNode

  /** The root and the _Metadata node are put into their buckets by hand and are nobody's children. */
  datatype BuiltIn = BuiltIn(root: Node, metadata: Node)
  {
    ghost function Nodes(): set<Node> { {root, metadata} }
  }

  datatype Event = Joined(node: Node) | Left(node: Node)

  /** The search by id finds p as the parent of m. It never finds a record member, and is skipped for a node that looks
      like its own parent. */
  predicate Finds(p: Node, m: Node) {
    !p.isMember && p.hasChildren && Names(m, p) && m.parentId != EffectiveId(m)
  }

  ghost function Present(b: BuiltIn, h: seq<Event>): set<Node> {
    if h == [] then b.Nodes()
    else
      match h[|h| - 1]
      case Joined(n) => Present(b, h[..|h| - 1]) + {n}
      case Left(n) => Present(b, h[..|h| - 1]) - {n}
  }

  /** Those of the nodes that name p. */
  ghost function Namers(nodes: set<Node>, p: Node): set<Node> { set m | m in nodes && Names(m, p) }

  /** The children of p: a node that joins is added to its parent if that is found, and is given all that name it; a
      node that leaves is taken from its parent if that is found, and keeps its own children. */
  ghost function Children(b: BuiltIn, h: seq<Event>, p: Node): set<Node> {
    if h == [] then {}
    else
      var before := h[..|h| - 1];
      var kids := Children(b, before, p);
      var found := p in Present(b, before) && Finds(p, h[|h| - 1].node);
      match h[|h| - 1]
      case Joined(n) =>
        if n == p then kids + if p.hasChildren then Namers(Present(b, h), p) else {}
        else if found then kids + {n} else kids
      case Left(n) => if n != p && found then kids - {n} else kids
  }

  ghost predicate UniqueIds(nodes: set<Node>) {
    forall m <- nodes, n <- nodes :: EffectiveId(m) == EffectiveId(n) ==> m == n
  }

  ghost predicate Identified(b: BuiltIn, nodes: set<Node>) {
    && b.root in nodes && b.root.id == b.root.parentId == 0 && !b.root.isMember && b.root.hasChildren
    && b.metadata in nodes && b.metadata.id == 25 && b.metadata.parentId == 0 && !b.metadata.isMember
    && UniqueIds(nodes)
  }

  /** Nodes join and leave in turn, effective ids are unique, and the built-in nodes stay. */
  ghost predicate Legal(b: BuiltIn, h: seq<Event>) {
    && Identified(b, Present(b, h))
    && (h == [] ||
        var before, n := h[..|h| - 1], h[|h| - 1].node;
        && Legal(b, before) && n !in b.Nodes()
        && (h[|h| - 1].Joined? <==> n !in Present(b, before)))
  }

  /** Nodes that are no record members leave after their children. */
  ghost predicate Orderly(b: BuiltIn, h: seq<Event>) {
    h == [] ||
    var before, e := h[..|h| - 1], h[|h| - 1];
    Orderly(b, before) && (e.Left? && !e.node.isMember ==> Namers(Present(b, before), e.node) == {})
  }

  lemma {:induction false} ChildrenNameTheirParent(b: BuiltIn, h: seq<Event>, p: Node)
    ensures forall m <- Children(b, h, p) :: Names(m, p) && p.hasChildren
  {
    if h != [] {
      ChildrenNameTheirParent(b, h[..|h| - 1], p);
    }
  }

  // ----- one more event

  lemma Joining(b: BuiltIn, h: seq<Event>, n: Node, p: Node)
    ensures var h' := h + [Joined(n)];
            && Present(b, h') == Present(b, h) + {n}
            && Children(b, h', p)
               == if n == p then Children(b, h, p) + if p.hasChildren then Namers(Present(b, h) + {n}, p) else {}
                  else if p in Present(b, h) && Finds(p, n) then Children(b, h, p) + {n} else Children(b, h, p)
  {
    var h' := h + [Joined(n)];
    assert h'[..|h'| - 1] == h;
  }

  lemma Leaving(b: BuiltIn, h: seq<Event>, n: Node, p: Node)
    ensures var h' := h + [Left(n)];
            && Present(b, h') == Present(b, h) - {n}
            && Children(b, h', p)
               == if p in Present(b, h) - {n} && Finds(p, n) then Children(b, h, p) - {n} else Children(b, h, p)
  {
    var h' := h + [Left(n)];
    assert h'[..|h'| - 1] == h;
  }

  ghost predicate About(h: seq<Event>, nodes: set<Node>) { forall e <- h :: e.node in nodes }

  /** A node that nothing has happened to has no children and is nobody's. */
  lemma {:induction false} OthersAreAlone(b: BuiltIn, h: seq<Event>, nodes: set<Node>, p: Node)
    requires About(h, nodes) && b.Nodes() <= nodes
    ensures Present(b, h) <= nodes && Children(b, h, p) <= nodes && (p !in nodes ==> Children(b, h, p) == {})
  {
    if h != [] {
      assert h[|h| - 1] in h;
      OthersAreAlone(b, h[..|h| - 1], nodes, p);
    }
  }

  // ----- ordinary nodes

  /** The children that p should have. */
  ghost function Due(b: BuiltIn, h: seq<Event>, p: Node): set<Node> { Namers(Present(b, h), p) - b.Nodes() }

  /** In any order of joining, and with parents leaving after their children, the children of every node that is no
      record member are exactly the nodes that name it; none are left to one that is gone. */
  lemma {:induction false} OrdinaryNodesAgree(b: BuiltIn, h: seq<Event>, p: Node)
    requires Legal(b, h) && Orderly(b, h) && !p.isMember && p.hasChildren
    ensures Children(b, h, p) == if p in Present(b, h) then Due(b, h, p) else {}
  {
    if h == [] {
      assert p in Present(b, h) ==> Due(b, h, p) == {};
    } else {
      var before, n := h[..|h| - 1], h[|h| - 1].node;
      OrdinaryNodesAgree(b, before, p);
      assert p in Present(b, before) * Present(b, h) && p != n && Names(n, p) && n in Present(b, h) ==> Finds(p, n);
    }
  }

  // ----- record members that can have children

  /** Who was registered when p was, the last time or any time before. */
  ghost function Met(b: BuiltIn, h: seq<Event>, p: Node): set<Node> {
    if h == [] then {}
    else Met(b, h[..|h| - 1], p) + if h[|h| - 1] == Joined(p) then Present(b, h) else {}
  }

  /** A record member has as its children those that were there when it was registered and name it: later ones never
      become its children, and it keeps those that have gone. */
  lemma {:induction false} MembersKeepWhomTheyMet(b: BuiltIn, h: seq<Event>, p: Node)
    requires p.isMember && p.hasChildren
    ensures Children(b, h, p) == Namers(Met(b, h, p), p)
  {
    if h != [] {
      MembersKeepWhomTheyMet(b, h[..|h| - 1], p);
    }
  }

  /** So tree and index agree about it exactly if whoever names it and was there then is there now, and the reverse. */
  lemma MembersAgreeExactlyIf(b: BuiltIn, h: seq<Event>, p: Node)
    requires p.isMember && p.hasChildren
    ensures Children(b, h, p) == Namers(Present(b, h), p)
            <==> forall m <- Met(b, h, p) + Present(b, h) | Names(m, p) :: m in Met(b, h, p) <==> m in Present(b, h)
  {
    MembersKeepWhomTheyMet(b, h, p);
    SameNamers(Met(b, h, p), Present(b, h), p);
  }

  lemma SameNamers(x: set<Node>, y: set<Node>, p: Node)
    ensures Namers(x, p) == Namers(y, p) <==> forall m <- x + y | Names(m, p) :: m in x <==> m in y
  {
    assert forall m <- x + y | Names(m, p) :: (m in x <==> m in Namers(x, p)) && (m in y <==> m in Namers(y, p));
  }
}
