/** ThingSetRegistry: the index always agrees with the set of registered nodes, and the tree with their history. */
module Registry {
  import opened IntrusiveLinkedList
  import opened RegistryHistory
  import opened RegistryLists
  import opened RegistryNode
  import opened Wrappers

  method FindParentById(nodeMap: seq<List<Node>>, ghost indexed: set<Node>, ghost nodes: set<Node>, id: nat)
    returns (parent: Option<Node>)
    requires Filed(nodeMap, indexed, nodes) && UniqueIds(indexed)
    ensures Filed(nodeMap, indexed, nodes)
    ensures forall p :: parent == Some(p) <==> p in indexed && !p.isMember && p.hasChildren && p.id == id
  {
    hide Filed;
    parent := FindById(nodeMap, indexed, nodes, id);
    if parent.Some? && !parent.value.hasChildren {
      parent := None;
    }
  }

  // ----- registering

  ghost predicate ParentIs(indexed: set<Node>, node: Node, parent: Option<Node>) {
    && (parent.Some? ==> parent.value in indexed && Finds(parent.value, node))
    && forall p <- indexed | Finds(p, node) :: parent == Some(p)
  }

  method FindParentOf(nodeMap: seq<List<Node>>, ghost indexed: set<Node>, ghost nodes: set<Node>, node: Node)
    returns (parent: Option<Node>)
    requires Filed(nodeMap, indexed, nodes) && UniqueIds(indexed)
    ensures Filed(nodeMap, indexed, nodes) && ParentIs(indexed - {node}, node, parent)
  {
    hide Filed, UniqueIds;
    parent := None;
    if node.parentId != EffectiveId(node) {
      parent := FindParentById(nodeMap, indexed, nodes, node.parentId);
    }
  }

  /** The node has become the last child of its parent, if it was linked to no other child, and nothing else changed. */
  twostate predicate Entered(nodes: set<Node>, new node: Node, new parent: Option<Node>)
    requires old(allocated(node)) && old(allocated(parent))
    reads KidLists(nodes), ChildLinks(nodes), node.child, node.kids, node.kids.contents
    reads if parent.Some? then {parent.value.kids} else {}
  {
    && KidsAreNodes(nodes) && node.kids.Valid()
    && (forall q <- nodes | parent != Some(q) :: q.kids.Fields() == old(q.kids.Fields()))
    && (parent.Some? ==>
          var kids := parent.value.kids;
          if old(node.child.next) != null then kids.Fields() == old(kids.Fields())
          else
            && kids.tail == node.child
            && kids.contents
               == old(kids.contents) + if node.child in old(kids.contents) then [] else [node.child])
  }

  lemma TreeMeans(nodes: set<Node>)
    requires Tree(nodes)
    ensures KidsAreNodes(nodes) && forall p <- nodes :: p.kids.Valid()
  {
  }

  twostate lemma AppendedMeansEntered(nodes: set<Node>, new p: Node, new node: Node)
    requires old(allocated(p)) && old(allocated(node)) && p in nodes && node in nodes && p != node
    requires AllSound(nodes) && old(Tree(nodes)) && Appended(nodes, p, node)
    ensures Entered(nodes, node, Some(p))
  {
    OnlyKidsOfParent(nodes, p, node);
    KidStaysValid(nodes, p, node);
    IsLastNow(nodes, p, node);
    hide Tree, List.Valid, List.Chain;
  }

  twostate lemma OnlyKidsOfParent(nodes: set<Node>, new p: Node, new node: Node)
    requires old(allocated(p)) && old(allocated(node)) && p in nodes && node in nodes
    requires old(Tree(nodes)) && Appended(nodes, p, node)
    ensures OnlyKids(nodes, p)
  {
    TailIsChild(nodes, p);
    hide List.Valid, List.Chain, Tree;
  }

  twostate lemma IsLastNow(nodes: set<Node>, new p: Node, new node: Node)
    requires old(allocated(p)) && old(allocated(node)) && p in nodes && node in nodes
    requires old(Tree(nodes)) && Appended(nodes, p, node)
    ensures old(node.child.next) == null ==> p.kids.tail == node.child
  {
    LastOrOrphan(nodes, node);
    assert old(p.kids.Valid());
    hide Tree;
    if old(node.child.next) == null && node.child in old(p.kids.contents) {
      var k :| 0 <= k < |old(p.kids.contents)| && old(p.kids.contents)[k] == node.child;
    }
  }

  twostate lemma TailIsChild(nodes: set<Node>, new p: Node)
    requires old(allocated(p)) && p in nodes && old(Tree(nodes))
    ensures old(p.kids.tail) == null || old(p.kids.tail) in old(p.kids.contents)
  {
    assert old(p.kids.Valid());
  }

  method AddToParent(nodeMap: seq<List<Node>>, ghost indexed: set<Node>, ghost nodes: set<Node>, node: Node,
                     parent: Option<Node>)
    requires Linked(nodeMap, indexed, nodes) && node in nodes && parent != Some(node)
    requires parent.Some? ==> parent.value in nodes
    modifies KidLists(nodes)`head, KidLists(nodes)`tail, KidLists(nodes)`contents, ChildLinks(nodes)`next
    ensures Filed(nodeMap, indexed, nodes) && Entered(nodes, node, parent)
    ensures Tree(nodes) <==> parent.Some? ==> old(NobodysLast(nodes, node))
  {
    TreeMeans(nodes);
    hide Filed, Tree, NobodysLast, Appended;
    if parent.Some? {
      parent.value.kids.ValidChain();
      AddChild(nodeMap, indexed, nodes, parent.value, node);
      SoundIfFiled(nodeMap, indexed, nodes);
      AppendedMeansEntered(nodes, parent.value, node);
    }
  }

  /** The last child of q when the node has become one of its parent. */
  ghost function LastThen(nodes: set<Node>, node: Node, parent: Option<Node>, q: Node): Link?<Node>
    reads KidLists(nodes), q.kids
  {
    if parent == Some(q) && Orphan(nodes, node) then node.child else q.kids.tail
  }

  /** Whoever names the node is the last child of no other; and if the last child that the node still has names it, then
      so does one that is nobody's child. */
  ghost predicate AdoptsThen(indexed: set<Node>, nodes: set<Node>, node: Node, parent: Option<Node>)
    reads KidLists(nodes), node.kids
  {
    && (forall m <- indexed, q <- nodes | Names(m, node) && q != node :: LastThen(nodes, node, parent, q) != m.child)
    && ((exists m <- indexed :: Names(m, node) && node.kids.tail == m.child) ==>
          exists m <- indexed :: Names(m, node) && Orphan(nodes, m) && !(m == node && parent.Some?))
  }

  /** What must be so before the node is registered: if it has a parent, it is nobody's last child; and if it can have
      children, nothing is in the way of adopting them. */
  ghost predicate StaysProper(indexed: set<Node>, nodes: set<Node>, node: Node, parent: Option<Node>)
    reads KidLists(nodes), node.kids
  {
    && (parent.Some? ==> NobodysLast(nodes, node))
    && (node.hasChildren ==> AdoptsThen(indexed, nodes, node, parent))
  }

  twostate lemma OrphansThen(nodes: set<Node>, new node: Node, new parent: Option<Node>)
    requires old(allocated(node)) && old(allocated(parent)) && AllSound(nodes) && node in nodes && old(Tree(nodes))
    requires Entered(nodes, node, parent) && (parent.Some? ==> parent.value in nodes && old(NobodysLast(nodes, node)))
    ensures old(node.child.next) == null && parent.Some? ==> old(Orphan(nodes, node))
    ensures old(Orphan(nodes, node)) ==> old(node.child.next) == null
    ensures forall m <- nodes :: Orphan(nodes, m) <==> old(Orphan(nodes, m)) && !(m == node && parent.Some?)
    ensures forall q <- nodes :: q.kids.tail == old(LastThen(nodes, node, parent, q))
  {
    LastOrOrphan(nodes, node);
    forall m <- nodes ensures Orphan(nodes, m) <==> old(Orphan(nodes, m)) && !(m == node && parent.Some?) {
      OrphanThen(nodes, node, parent, m);
    }
    hide Tree, List.Valid, Node.Sound, NobodysLast, Orphan;
  }

  twostate lemma OrphanThen(nodes: set<Node>, new node: Node, new parent: Option<Node>, new m: Node)
    requires old(allocated(node)) && old(allocated(parent)) && old(allocated(m))
    requires AllSound(nodes) && node in nodes && m in nodes
    requires Entered(nodes, node, parent)
    requires parent.Some? ==> parent.value in nodes && (old(node.child.next) == null <==> old(Orphan(nodes, node)))
    ensures Orphan(nodes, m) <==> old(Orphan(nodes, m)) && !(m == node && parent.Some?)
  {
    hide List.Valid;
    if parent.Some? && old(Orphan(nodes, node)) {
      assert node.child in parent.value.kids.contents;
      assert m != node ==> m.child != node.child;
    }
  }

  twostate lemma AdoptsWellThen(nodes: set<Node>, new indexed: set<Node>, new node: Node, new parent: Option<Node>)
    requires old(allocated(indexed)) && old(allocated(node)) && old(allocated(parent))
    requires AllSound(nodes) && node in nodes && indexed <= nodes && old(Tree(nodes)) && parent != Some(node)
    requires Entered(nodes, node, parent) && (parent.Some? ==> parent.value in nodes && old(NobodysLast(nodes, node)))
    ensures AdoptsWell(indexed, nodes, node) <==> old(AdoptsThen(indexed, nodes, node, parent))
  {
    OrphansThen(nodes, node, parent);
    SameVerdict(nodes, indexed, node, parent);
  }

  twostate lemma SameVerdict(nodes: set<Node>, new indexed: set<Node>, new node: Node, new parent: Option<Node>)
    requires old(allocated(indexed)) && old(allocated(node)) && old(allocated(parent))
    requires indexed <= nodes && node.kids.tail == old(node.kids.tail)
    requires forall m <- nodes :: Orphan(nodes, m) <==> old(Orphan(nodes, m)) && !(m == node && parent.Some?)
    requires forall q <- nodes :: q.kids.tail == old(LastThen(nodes, node, parent, q))
    ensures AdoptsWell(indexed, nodes, node) <==> old(AdoptsThen(indexed, nodes, node, parent))
  {
    hide Orphan, LastThen;
  }

  // ----- into the tree

  /** Whose children there are, provided that the tree is proper. */
  twostate predicate Attached(nodes: set<Node>, new indexed: set<Node>, new node: Node, new parent: Option<Node>)
    requires old(allocated(node)) && old(allocated(parent))
    reads KidLists(nodes), node.kids
  {
    && (forall q <- nodes | q != node ::
          q.kids.contents
          == old(q.kids.contents) + if parent == Some(q) && old(Orphan(nodes, node)) then [node.child] else [])
    && (forall m <- nodes ::
          m.child in node.kids.contents
          <==> m.child in old(node.kids.contents)
               || (node.hasChildren && m in indexed && Names(m, node) && old(Orphan(nodes, m))
                   && !(m == node && parent.Some?)))
  }

  /** The last child is its own successor. */
  ghost predicate Cyclic(node: Node)
    reads node.kids, node.kids.contents
  {
    node.kids.tail != null && node.kids.tail in node.kids.contents && node.kids.tail.next == node.kids.tail
  }

  /** The registered node is added to its parent, and whoever names it to the node. */
  method Attach(nodeMap: seq<List<Node>>, ghost indexed: set<Node>, ghost nodes: set<Node>, node: Node,
                parent: Option<Node>)
    requires Linked(nodeMap, indexed, nodes) && node in indexed && parent != Some(node)
    requires parent.Some? ==> parent.value in nodes
    modifies KidLists(nodes)`head, KidLists(nodes)`tail, KidLists(nodes)`contents, ChildLinks(nodes)`next
    ensures Filed(nodeMap, indexed, nodes) && (Tree(nodes) <==> old(StaysProper(indexed, nodes, node, parent)))
    ensures Tree(nodes) ==> Attached(nodes, indexed, node, parent)
    ensures node.hasChildren && old(AdoptsAgain(indexed, node)) ==> Cyclic(node)
  {
    hide Filed, Tree, NobodysLast, Entered, AdoptsWell, AdoptsThen, Orphan, List.Valid, Cyclic;
    SoundIfFiled(nodeMap, indexed, nodes);
    AddToParent(nodeMap, indexed, nodes, node, parent);
    EnteredMeans(nodes, node, parent);
    SoundIfFiled(nodeMap, indexed, nodes);
    if Tree(nodes) {
      AdoptsWellThen(nodes, indexed, node, parent);
      KidsThen(nodes, node, parent);
    }
    if node.hasChildren {
      AdoptKids(nodeMap, indexed, nodes, node);
    }
  }

  method AdoptKids(nodeMap: seq<List<Node>>, ghost indexed: set<Node>, ghost nodes: set<Node>, node: Node)
    requires Filed(nodeMap, indexed, nodes) && node in nodes && KidsAreNodes(nodes) && node.kids.Valid()
    modifies node.kids`head, node.kids`tail, node.kids`contents, ChildLinks(nodes)`next
    ensures Filed(nodeMap, indexed, nodes)
    ensures Tree(nodes) <==> old(Tree(nodes)) && old(AdoptsWell(indexed, nodes, node))
    ensures Tree(nodes) ==>
              forall m <- nodes ::
                m.child in node.kids.contents
                <==> m.child in old(node.kids.contents) || (m in indexed && Names(m, node) && old(Orphan(nodes, m)))
    ensures forall q <- nodes | q != node :: q.kids.Fields() == old(q.kids.Fields())
    ensures old(AdoptsAgain(indexed, node)) ==> Cyclic(node)
  {
    hide Filed, Tree, Adopted, AdoptsWell, Orphan, List.Valid;
    SoundIfFiled(nodeMap, indexed, nodes);
    AdoptAll(nodeMap, indexed, nodes, node);
    AdoptingKeepsTree(nodes, indexed, node);
    WhoIsAdopted(nodes, indexed, node);
    if Tree(nodes) {
      OrphansAreAdopted(nodes, indexed, node);
    }
    if old(AdoptsAgain(indexed, node)) {
      AdoptedAgain(nodes, indexed, node);
    }
  }

  twostate lemma EnteredMeans(nodes: set<Node>, new node: Node, new parent: Option<Node>)
    requires old(allocated(node)) && old(allocated(parent)) && Entered(nodes, node, parent)
    ensures KidsAreNodes(nodes) && node.kids.Valid()
    ensures node in nodes && parent != Some(node) ==> node.kids.Fields() == old(node.kids.Fields())
  {
  }

  twostate lemma KidsThen(nodes: set<Node>, new node: Node, new parent: Option<Node>)
    requires old(allocated(node)) && old(allocated(parent)) && AllSound(nodes) && node in nodes && old(Tree(nodes))
    requires Entered(nodes, node, parent) && (parent.Some? ==> parent.value in nodes && old(NobodysLast(nodes, node)))
    requires parent != Some(node)
    ensures forall q <- nodes ::
              q.kids.contents
              == old(q.kids.contents) + if parent == Some(q) && old(Orphan(nodes, node)) then [node.child] else []
    ensures forall m <- nodes :: Orphan(nodes, m) <==> old(Orphan(nodes, m)) && !(m == node && parent.Some?)
  {
    OrphansThen(nodes, node, parent);
  }

  // ----- both halves of registerNode, behind the check for duplicates

  twostate lemma SameTree(nodes: set<Node>, new indexed: set<Node>, new node: Node, new parent: Option<Node>)
    requires old(allocated(indexed)) && old(allocated(node)) && old(allocated(parent)) && node in nodes
    requires SameKids(nodes)
    ensures old(StaysProper(indexed, nodes, node, parent)) <==> StaysProper(indexed, nodes, node, parent)
    ensures forall q <- nodes :: q.kids.contents == old(q.kids.contents)
    ensures forall m <- nodes :: Orphan(nodes, m) <==> old(Orphan(nodes, m))
  {
    assert forall q <- nodes :: q.kids.Fields() == old(q.kids.Fields());
  }

  method Admit(nodeMap: seq<List<Node>>, ghost indexed: set<Node>, ghost nodes: set<Node>, node: Node)
    returns (ghost parent: Option<Node>)
    requires Linked(nodeMap, indexed, nodes) && node in nodes - indexed && UniqueIds(indexed + {node})
    modifies nodeMap`head, nodeMap`tail, nodeMap`contents, ListLinks(nodes)`next
    modifies KidLists(nodes)`head, KidLists(nodes)`tail, KidLists(nodes)`contents, ChildLinks(nodes)`next
    ensures Filed(nodeMap, indexed + {node}, nodes)
    ensures ParentIs(indexed, node, parent) && old(allocated(parent)) && (parent.Some? ==> parent.value in nodes)
    ensures Tree(nodes) <==> old(StaysProper(indexed + {node}, nodes, node, parent))
    ensures Tree(nodes) ==> Attached(nodes, indexed + {node}, node, parent)
    ensures node.hasChildren && old(AdoptsAgain(indexed + {node}, node)) ==> Cyclic(node)
  {
    hide Filed, Tree, UniqueIds, StaysProper, Orphan;
    PushToBucket(nodeMap, indexed, nodes, node);
    var found := FindParentOf(nodeMap, indexed + {node}, nodes, node);
    SoundIfFiled(nodeMap, indexed + {node}, nodes);
    assert indexed + {node} - {node} == indexed;
    SameTree(nodes, indexed + {node}, node, found);
    Attach(nodeMap, indexed + {node}, nodes, node, found);
    parent := found;
  }

  /** The check for duplicates, which looks into one bucket only. */
  method IsDuplicate(nodeMap: seq<List<Node>>, ghost indexed: set<Node>, ghost nodes: set<Node>, node: Node)
    returns (duplicate: bool)
    requires Filed(nodeMap, indexed, nodes)
    ensures Filed(nodeMap, indexed, nodes)
    ensures duplicate <==> exists n <- indexed :: EffectiveId(n) == EffectiveId(node)
  {
    var id := EffectiveId(node);
    hide Filed, List.Valid;
    BucketStart(nodeMap, indexed, nodes, Bucket(id));
    var link := nodeMap[Bucket(id)].head;
    ghost var contents := nodeMap[Bucket(id)].contents;
    ghost var k := 0;
    while link != null
      invariant Filed(nodeMap, indexed, nodes) && k <= |contents| && link == At(contents, k)
      invariant forall j | 0 <= j < k :: contents[j].container.Some? && EffectiveId(contents[j].container.value) != id
      decreases |contents| - k
    {
      InBucket(nodeMap, indexed, nodes, Bucket(id), k);
      if EffectiveId(link.container.value) == id {
        return true;
      }
      link := link.next;
      k := k + 1;
    }
    assert forall n <- indexed :: EffectiveId(n) == id ==> n.list in contents;
    return false;
  }

  /** findById with a parent: a record member by its own id and that of its record. */
  method FindMember(nodeMap: seq<List<Node>>, ghost indexed: set<Node>, ghost nodes: set<Node>, id: nat,
                     parentId: nat) returns (node: Option<Node>)
    requires Filed(nodeMap, indexed, nodes) && UniqueIds(indexed)
    ensures Filed(nodeMap, indexed, nodes)
    ensures forall n :: node == Some(n) <==>
              && n in indexed && n.isMember && n.id == id && n.parentId == parentId
              && exists p <- indexed :: !p.isMember && p.hasChildren && p.isRecord && p.id == parentId
  {
    hide Filed;
    var parent := FindParentById(nodeMap, indexed, nodes, parentId);
    if parent == None || !parent.value.isRecord {
      return None;
    }
    node := FindProxy(nodeMap, indexed, nodes, id, parentId);
  }

  /** The search in the members' bucket. */
  method FindProxy(nodeMap: seq<List<Node>>, ghost indexed: set<Node>, ghost nodes: set<Node>, id: nat,
                     parentId: nat) returns (node: Option<Node>)
    requires Filed(nodeMap, indexed, nodes) && UniqueIds(indexed)
    ensures Filed(nodeMap, indexed, nodes)
    ensures forall n :: node == Some(n) <==> n in indexed && n.isMember && n.id == id && n.parentId == parentId
  {
    var b := Bucket(CalculateId(id, parentId));
    hide Filed, List.Valid;
    BucketStart(nodeMap, indexed, nodes, b);
    var link := nodeMap[b].head;
    ghost var contents := nodeMap[b].contents;
    ghost var k := 0;
    while link != null
      invariant Filed(nodeMap, indexed, nodes) && k <= |contents| && link == At(contents, k)
      invariant forall j | 0 <= j < k :: contents[j].container.Some?
      invariant forall j | 0 <= j < k ::
                  !(contents[j].container.value.id == id && contents[j].container.value.parentId == parentId)
      decreases |contents| - k
    {
      InBucket(nodeMap, indexed, nodes, b, k);
      var n := link.container.value;
      if n.id == id && n.parentId == parentId {
        MembersAreElsewhere(id, parentId);
        return Some(n);
      }
      link := link.next;
      k := k + 1;
    }
    assert forall n <- indexed :: n.isMember && n.id == id && n.parentId == parentId ==> n.list in contents;
    return None;
  }


  method NewBuckets() returns (lists: seq<List<Node>>)
    ensures |lists| == BUCKETS && fresh(lists) && Distinct(lists)
    ensures forall b <- lists :: b.Valid() && b.contents == [] && b.container == None
  {
    lists := [];
    for i := 0 to BUCKETS
      invariant |lists| == i && fresh(lists) && Distinct(lists)
      invariant forall b <- lists :: b.Valid() && b.contents == [] && b.container == None
    {
      var list := new List<Node>();
      lists := lists + [list];
    }
  }

  method NewBuiltIn() returns (b: BuiltIn)
    ensures fresh(b.root) && fresh(b.root.list) && fresh(b.metadata) && b.root != b.metadata
    ensures b.root.Sound() && b.metadata.Sound() && b.root.Unlinked() && b.metadata.Unlinked()
    ensures Identified(b, b.Nodes())
  {
    var root := new Node(0, 0, false, true, false);
    var metadata := new Node(25, 0, false, true, false);
    b := BuiltIn(root, metadata);
  }

  method EnterFirst(nodeMap: seq<List<Node>>, b: BuiltIn)
    requires |nodeMap| == BUCKETS && Distinct(nodeMap)
    requires forall list <- nodeMap :: list.Valid() && list.contents == [] && list.container == None
    requires b.root != b.metadata && b.root.Sound() && b.metadata.Sound() && b.root.Unlinked() && b.metadata.Unlinked()
    modifies nodeMap`head, nodeMap`tail, nodeMap`contents, b.root.list`next, b.metadata.list`next
    ensures Linked(nodeMap, b.Nodes(), b.Nodes()) && b.root.kids.contents == b.metadata.kids.contents == []
  {
    assert Linked(nodeMap, {}, b.Nodes());
    hide Indexed, Tree, AllSound, Buckets, List.Valid;
    assert {} + {b.root} == {b.root} && {b.root} + {b.metadata} == b.Nodes();
    PushToBucket(nodeMap, {}, b.Nodes(), b.root);
    PushToBucket(nodeMap, {b.root}, b.Nodes(), b.metadata);
  }

  // ----- the tree follows the history

  /** No two of the nodes that can have children have the same id. */
  ghost predicate DistinctParents(nodes: set<Node>) {
    forall p <- nodes, q <- nodes | p.hasChildren && q.hasChildren && p.id == q.id :: p == q
  }

  ghost predicate Follows(b: BuiltIn, h: seq<Event>, nodes: set<Node>)
    reads KidLists(nodes)
  {
    forall p <- nodes, m <- nodes :: m.child in p.kids.contents <==> m in Children(b, h, p)
  }

  /** Whoever has children has those who name it. */
  lemma KidsNameTheirParent(b: BuiltIn, h: seq<Event>, nodes: set<Node>, q: Node, m: Node)
    requires Follows(b, h, nodes) && q in nodes && m in nodes && m.child in q.kids.contents
    ensures Names(m, q) && q.hasChildren
  {
    ChildrenNameTheirParent(b, h, q);
  }

  /** With distinct parents, who names a node is its child or nobody's. */
  lemma ChildOrOrphan(b: BuiltIn, h: seq<Event>, nodes: set<Node>, p: Node, m: Node)
    requires Follows(b, h, nodes) && DistinctParents(nodes) && p in nodes && p.hasChildren && m in nodes && Names(m, p)
    ensures Orphan(nodes, m) <==> m !in Children(b, h, p)
  {
    forall q <- nodes | m.child in q.kids.contents ensures q == p {
      KidsNameTheirParent(b, h, nodes, q, m);
    }
  }

  twostate lemma FollowsJoined(nodes: set<Node>, new b: BuiltIn, new h: seq<Event>, new node: Node,
                               new parent: Option<Node>)
    requires old(allocated(b)) && old(allocated(h)) && old(allocated(node)) && old(allocated(parent))
    requires old(Follows(b, h, nodes)) && DistinctParents(nodes) && Present(b, h) <= nodes
    requires node in nodes - Present(b, h) && ParentIs(Present(b, h), node, parent)
    requires Attached(nodes, Present(b, h) + {node}, node, parent) && AllSound(nodes)
    ensures Follows(b, h + [Joined(node)], nodes)
  {
    hide Orphan, Node.Sound;
    forall p <- nodes, m <- nodes
      ensures m.child in p.kids.contents <==> m in Children(b, h + [Joined(node)], p)
    {
      Joining(b, h, node, p);
      JoinedChild(nodes, b, h, node, parent, p, m);
    }
  }

  twostate lemma JoinedChild(nodes: set<Node>, new b: BuiltIn, new h: seq<Event>, new node: Node,
                             new parent: Option<Node>, new p: Node, new m: Node)
    requires old(allocated(b)) && old(allocated(h)) && old(allocated(node)) && old(allocated(parent))
    requires old(allocated(p)) && old(allocated(m))
    requires old(Follows(b, h, nodes)) && DistinctParents(nodes) && Present(b, h) <= nodes
    requires node in nodes - Present(b, h) && ParentIs(Present(b, h), node, parent) && p in nodes && m in nodes
    requires Attached(nodes, Present(b, h) + {node}, node, parent) && AllSound(nodes)
    ensures m.child in p.kids.contents <==>
              if p == node then m in Children(b, h, p) || (p.hasChildren && m in Present(b, h) + {node} && Names(m, p))
              else m in Children(b, h, p) || (p in Present(b, h) && Finds(p, node) && m == node)
  {
    if p == node {
      if node.hasChildren && Names(m, node) {
        OldChildOrOrphan(nodes, b, h, node, m);
      }
    } else if parent == Some(p) {
      OldChildOrOrphan(nodes, b, h, p, node);
      assert m.child == node.child <==> m == node;
    }
  }

  twostate lemma OldChildOrOrphan(nodes: set<Node>, new b: BuiltIn, new h: seq<Event>, new p: Node, new m: Node)
    requires old(allocated(b)) && old(allocated(h)) && old(allocated(p)) && old(allocated(m))
    requires old(Follows(b, h, nodes)) && DistinctParents(nodes)
    requires p in nodes && p.hasChildren && m in nodes && Names(m, p)
    ensures old(Orphan(nodes, m)) <==> m !in Children(b, h, p)
  {
    forall q <- nodes | m.child in old(q.kids.contents) ensures q == p {
      ChildrenNameTheirParent(b, h, q);
    }
  }

  /** If the last child that the node still has from an earlier time is registered, then so is a new one. */
  ghost predicate Outgrown(b: BuiltIn, h: seq<Event>, node: Node)
    reads node.kids
  {
    (exists m <- Present(b, h) + {node} :: Names(m, node) && node.kids.tail == m.child) ==>
      exists m <- Present(b, h) + {node} :: Names(m, node) && m !in Children(b, h, node)
  }

  lemma LastIsChild(nodes: set<Node>, q: Node, m: Node)
    requires Tree(nodes) && q in nodes && q.kids.tail == m.child
    ensures m.child in q.kids.contents
  {
    assert q.kids.Valid();
  }

  /** With distinct parents, and ordinary nodes leaving after their children, the only thing that can be in the way is a
      record member's own last child from an earlier time, when nobody new names it. */
  lemma ProperExactlyIf(b: BuiltIn, h: seq<Event>, nodes: set<Node>, node: Node, parent: Option<Node>)
    requires Legal(b, h) && Orderly(b, h) && Follows(b, h, nodes) && DistinctParents(nodes)
    requires Tree(nodes) && AllSound(nodes)
    requires Present(b, h) <= nodes && node in nodes - Present(b, h) && ParentIs(Present(b, h), node, parent)
    ensures StaysProper(Present(b, h) + {node}, nodes, node, parent) <==> node.hasChildren ==> Outgrown(b, h, node)
    ensures !node.isMember ==> StaysProper(Present(b, h) + {node}, nodes, node, parent)
  {
    hide Orphan, Tree;
    ParentIsClear(b, h, nodes, node, parent);
    if node.hasChildren {
      NoOneElses(b, h, nodes, node, parent);
      forall m <- Present(b, h) + {node} | Names(m, node)
        ensures Orphan(nodes, m) <==> m !in Children(b, h, node)
      {
        ChildOrOrphan(b, h, nodes, node, m);
      }
      if !node.isMember {
        OrdinaryNodesAgree(b, h, node);
        NoKidsLeft(b, h, nodes, node);
      }
    }
  }

  lemma NoKidsLeft(b: BuiltIn, h: seq<Event>, nodes: set<Node>, node: Node)
    requires Follows(b, h, nodes) && Tree(nodes) && node in nodes && Children(b, h, node) == {}
    ensures forall m <- nodes :: node.kids.tail != m.child
  {
    forall m <- nodes ensures node.kids.tail != m.child {
      if node.kids.tail == m.child {
        LastIsChild(nodes, node, m);
        assert false;
      }
    }
  }

  lemma ParentIsClear(b: BuiltIn, h: seq<Event>, nodes: set<Node>, node: Node, parent: Option<Node>)
    requires Legal(b, h) && Orderly(b, h) && Follows(b, h, nodes) && DistinctParents(nodes) && Tree(nodes)
    requires Present(b, h) <= nodes && node in nodes - Present(b, h) && ParentIs(Present(b, h), node, parent)
    ensures parent.Some? ==> NobodysLast(nodes, node)
  {
    if parent.Some? {
      OrdinaryNodesAgree(b, h, parent.value);
      ChildOrOrphan(b, h, nodes, parent.value, node);
      forall q <- nodes ensures q.kids.tail != node.child {
        if q.kids.tail == node.child {
          LastIsChild(nodes, q, node);
          assert false;
        }
      }
    }
  }

  lemma NoOneElses(b: BuiltIn, h: seq<Event>, nodes: set<Node>, node: Node, parent: Option<Node>)
    requires Follows(b, h, nodes) && DistinctParents(nodes) && Tree(nodes) && AllSound(nodes) && node.hasChildren
    requires Present(b, h) <= nodes && node in nodes - Present(b, h) && ParentIs(Present(b, h), node, parent)
    ensures forall m <- Present(b, h) + {node}, q <- nodes | Names(m, node) && q != node ::
              LastThen(nodes, node, parent, q) != m.child
    ensures Names(node, node) ==> parent == None
  {
    forall m <- Present(b, h) + {node}, q <- nodes | Names(m, node) && q != node
      ensures LastThen(nodes, node, parent, q) != m.child
    {
      if q.kids.tail == m.child {
        LastIsChild(nodes, q, m);
        KidsNameTheirParent(b, h, nodes, q, m);
        assert false;
      }
      assert m.child == node.child ==> m == node;
    }
  }

  // ----- unregistering

  twostate lemma FollowsLeft(nodes: set<Node>, new b: BuiltIn, new h: seq<Event>, new node: Node,
                             new parent: Option<Node>)
    requires old(allocated(b)) && old(allocated(h)) && old(allocated(node)) && old(allocated(parent))
    requires old(Follows(b, h, nodes)) && old(Tree(nodes)) && AllSound(nodes) && node in nodes
    requires ParentIs(Present(b, h) - {node}, node, parent)
    requires forall q <- nodes ::
               q.kids.contents
               == if parent == Some(q) then Without(old(q.kids.contents), node.child) else old(q.kids.contents)
    ensures Follows(b, h + [Left(node)], nodes)
  {
    forall p <- nodes, m <- nodes ensures m.child in p.kids.contents <==> m in Children(b, h + [Left(node)], p) {
      Leaving(b, h, node, p);
      WithoutOne(nodes, p, node);
      assert m.child == node.child <==> m == node;
    }
  }

  twostate lemma WithoutOne(nodes: set<Node>, new p: Node, new node: Node)
    requires old(allocated(p)) && old(allocated(node)) && p in nodes && old(Tree(nodes))
    ensures forall l :: l in Without(old(p.kids.contents), node.child) <==> l in old(p.kids.contents) && l != node.child
  {
    assert old(p.kids.Valid());
    WithoutIsExact(old(p.kids.contents), node.child);
  }

  method Dismiss(nodeMap: seq<List<Node>>, ghost indexed: set<Node>, ghost nodes: set<Node>, node: Node)
    returns (ghost parent: Option<Node>)
    requires Linked(nodeMap, indexed, nodes) && node in indexed && UniqueIds(indexed)
    modifies nodeMap`head, nodeMap`tail, nodeMap`contents, ListLinks(nodes)`next
    modifies KidLists(nodes)`head, KidLists(nodes)`tail, KidLists(nodes)`contents, ChildLinks(nodes)`next
    ensures Linked(nodeMap, indexed - {node}, nodes)
    ensures ParentIs(indexed - {node}, node, parent) && old(allocated(parent))
    ensures forall q <- nodes ::
              q.kids.contents
              == if parent == Some(q) then Without(old(q.kids.contents), node.child) else old(q.kids.contents)
  {
    hide Filed, Tree, UniqueIds;
    FewerIds(indexed, node);
    SoundIfFiled(nodeMap, indexed, nodes);
    RemoveFromBucket(nodeMap, indexed, nodes, node);
    var found := FindParentOf(nodeMap, indexed - {node}, nodes, node);
    assert indexed - {node} - {node} == indexed - {node};
    SoundIfFiled(nodeMap, indexed - {node}, nodes);
    if found.Some? {
      RemoveChild(nodeMap, indexed - {node}, nodes, found.value, node);
    }
    parent := found;
  }

  lemma FewerIds(nodes: set<Node>, node: Node)
    requires UniqueIds(nodes)
    ensures UniqueIds(nodes - {node})
  {
  }

  // ----- the registry

  class Registry {
    const nodeMap: seq<List<Node>>
    const builtIn: BuiltIn

    /** Of all `nodes`, those that are present after what has happened are indexed, and all lists of children are
        proper. If parents are distinct, the lists say what the history says. */
    ghost predicate Valid(h: seq<Event>, nodes: set<Node>)
      reads nodeMap, ListLinks(nodes), ChildLinks(nodes), KidLists(nodes)
    {
      && Legal(builtIn, h) && About(h, nodes) && builtIn.Nodes() <= nodes
      && Linked(nodeMap, Present(builtIn, h), nodes)
      && (DistinctParents(nodes) ==> Follows(builtIn, h, nodes))
    }

    constructor ()
      ensures Valid([], builtIn.Nodes()) && fresh(nodeMap) && fresh(builtIn.Nodes())
    {
      hide Linked, Identified;
      var buckets := NewBuckets();
      var nodes := NewBuiltIn();
      nodeMap, builtIn := buckets, nodes;
      new;
      EnterFirst(nodeMap, builtIn);
    }

    /** A node that has just been made and is linked to nothing. */
    lemma NewNode(h: seq<Event>, nodes: set<Node>, node: Node)
      requires Valid(h, nodes) && node !in nodes && node.Sound() && node.Unlinked()
      ensures Valid(h, nodes + {node})
    {
      LinkedWithNew(nodeMap, Present(builtIn, h), nodes, node);
      if DistinctParents(nodes + {node}) {
        forall p <- nodes + {node}, m <- nodes + {node}
          ensures m.child in p.kids.contents <==> m in Children(builtIn, h, p)
        {
          OthersAreAlone(builtIn, h, nodes, p);
        }
      }
    }

    /** registerNode. A duplicate trips an assertion, which is where this stops. Otherwise the node is registered,
        and the lists of children stay proper exactly if nothing was in the way. */
    method RegisterNode(node: Node, ghost h: seq<Event>, ghost nodes: set<Node>)
      returns (ok: bool, ghost parent: Option<Node>)
      requires Valid(h, nodes) && node in nodes - Present(builtIn, h)
      modifies nodeMap`head, nodeMap`tail, nodeMap`contents, ListLinks(nodes)`next
      modifies KidLists(nodes)`head, KidLists(nodes)`tail, KidLists(nodes)`contents, ChildLinks(nodes)`next
      ensures ok <==> forall n <- Present(builtIn, h) :: EffectiveId(n) != EffectiveId(node)
      ensures !ok ==> Valid(h, nodes)
      ensures ok ==> ParentIs(Present(builtIn, h), node, parent) && (parent.Some? ==> parent.value in nodes)
      ensures ok ==> Filed(nodeMap, Present(builtIn, h) + {node}, nodes)
      ensures ok ==>
                (Valid(h + [Joined(node)], nodes)
                 <==> old(StaysProper(Present(builtIn, h) + {node}, nodes, node, parent)))
      ensures ok && node.hasChildren && old(AdoptsAgain(Present(builtIn, h) + {node}, node)) ==> Cyclic(node)
    {
      hide Filed, Tree, Follows, DistinctParents, AdoptsThen, NobodysLast, ParentIs, Legal, About;
      var duplicate := IsDuplicate(nodeMap, Present(builtIn, h), nodes, node);
      if duplicate {
        return false, None;
      }
      parent := Register(node, h, nodes);
      return true, parent;
    }

    method Register(node: Node, ghost h: seq<Event>, ghost nodes: set<Node>) returns (ghost parent: Option<Node>)
      requires Valid(h, nodes) && node in nodes - Present(builtIn, h)
      requires forall n <- Present(builtIn, h) :: EffectiveId(n) != EffectiveId(node)
      modifies nodeMap`head, nodeMap`tail, nodeMap`contents, ListLinks(nodes)`next
      modifies KidLists(nodes)`head, KidLists(nodes)`tail, KidLists(nodes)`contents, ChildLinks(nodes)`next
      ensures ParentIs(Present(builtIn, h), node, parent)
      ensures old(allocated(parent)) && (parent.Some? ==> parent.value in nodes)
      ensures Filed(nodeMap, Present(builtIn, h) + {node}, nodes)
      ensures Valid(h + [Joined(node)], nodes)
              <==> old(StaysProper(Present(builtIn, h) + {node}, nodes, node, parent))
      ensures node.hasChildren && old(AdoptsAgain(Present(builtIn, h) + {node}, node)) ==> Cyclic(node)
    {
      ghost var present := Present(builtIn, h);
      hide Filed, Tree, Attached, StaysProper, UniqueIds, Identified, ParentIs, Follows, DistinctParents;
      StillLegal(builtIn, h, node);
      parent := Admit(nodeMap, present, nodes, node);
      SoundIfFiled(nodeMap, present + {node}, nodes);
      if Tree(nodes) && DistinctParents(nodes) {
        FollowsJoined(nodes, builtIn, h, node, parent);
      }
    }

    /** unregisterNode */
    method UnregisterNode(node: Node, ghost h: seq<Event>, ghost nodes: set<Node>)
      requires Valid(h, nodes) && node in Present(builtIn, h) && node !in builtIn.Nodes()
      modifies nodeMap`head, nodeMap`tail, nodeMap`contents, ListLinks(nodes)`next
      modifies KidLists(nodes)`head, KidLists(nodes)`tail, KidLists(nodes)`contents, ChildLinks(nodes)`next
      ensures Valid(h + [Left(node)], nodes)
    {
      ghost var present := Present(builtIn, h);
      hide Filed, Tree, UniqueIds, Identified, ParentIs, Follows, DistinctParents;
      SoundIfFiled(nodeMap, present, nodes);
      LegalToLeave(builtIn, h, node);
      ghost var parent := Dismiss(nodeMap, present, nodes, node);
      SoundIfFiled(nodeMap, present - {node}, nodes);
      if DistinctParents(nodes) {
        FollowsLeft(nodes, builtIn, h, node, parent);
      }
    }
  }

  lemma StillLegal(b: BuiltIn, h: seq<Event>, node: Node)
    requires Legal(b, h) && node !in Present(b, h)
    requires forall n <- Present(b, h) :: EffectiveId(n) != EffectiveId(node)
    ensures Present(b, h + [Joined(node)]) == Present(b, h) + {node}
    ensures Legal(b, h + [Joined(node)]) && UniqueIds(Present(b, h) + {node})
  {
    Joining(b, h, node, node);
    assert (h + [Joined(node)])[..|h|] == h;
  }

  lemma LegalToLeave(b: BuiltIn, h: seq<Event>, node: Node)
    requires Legal(b, h) && node in Present(b, h) - b.Nodes()
    ensures Present(b, h + [Left(node)]) == Present(b, h) - {node}
    ensures Legal(b, h + [Left(node)]) && UniqueIds(Present(b, h))
  {
    Leaving(b, h, node, node);
    assert (h + [Left(node)])[..|h|] == h;
  }
}
