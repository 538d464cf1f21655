/** The lists of the registry, all threaded through the nodes: eight buckets that index the nodes and the children of
    every node. What each operation on one list leaves of all the others. */
module RegistryLists {
  import opened FlatteningIterator
  import opened IntrusiveLinkedList
  import opened RegistryNode
  import opened Wrappers

  ghost function ListLinks(nodes: set<Node>): set<Link<Node>> { set n | n in nodes :: n.list }
  ghost function ChildLinks(nodes: set<Node>): set<Link<Node>> { set n | n in nodes :: n.child }
  ghost function KidLists(nodes: set<Node>): set<List<Node>> { set n | n in nodes :: n.kids }

  ghost predicate AllSound(nodes: set<Node>)
    reads ListLinks(nodes)`container, ChildLinks(nodes)`container, KidLists(nodes)`container
  {
    forall n <- nodes :: n.Sound()
  }

  /** Eight buckets that are not the children of any node. */
  ghost predicate Buckets(nodeMap: seq<List<Node>>)
    reads nodeMap`container
  {
    |nodeMap| == BUCKETS && Distinct(nodeMap) && forall b <- nodeMap :: b.container == None
  }

  /** Every bucket is a proper list of nodes, and a node is in the bucket of its effective id and in no other. */
  ghost predicate Indexed(nodeMap: seq<List<Node>>, nodes: set<Node>)
    reads nodeMap, ListLinks(nodes)
  {
    && |nodeMap| == BUCKETS
    && (forall i, k | 0 <= i < BUCKETS && 0 <= k < |nodeMap[i].contents| :: nodeMap[i].contents[k] in ListLinks(nodes))
    && (forall i | 0 <= i < BUCKETS :: nodeMap[i].Valid())
    && (forall n <- nodes, i | 0 <= i < BUCKETS ::
          n.list in nodeMap[i].contents <==> i == Bucket(EffectiveId(n)))
  }

  ghost predicate KidsAreNodes(nodes: set<Node>)
    reads KidLists(nodes)
  {
    forall p, k | p in nodes && 0 <= k < |p.kids.contents| :: p.kids.contents[k] in ChildLinks(nodes)
  }

  ghost predicate KidsAreLists(nodes: set<Node>)
    requires KidsAreNodes(nodes)
    reads KidLists(nodes), ChildLinks(nodes)
  {
    forall p <- nodes :: p.kids.Valid()
  }

  ghost predicate OneParent(nodes: set<Node>)
    reads KidLists(nodes)
  {
    forall p <- nodes, q <- nodes, l | l in p.kids.contents && l in q.kids.contents :: p == q
  }

  /** m is nobody's child. */
  ghost predicate Orphan(nodes: set<Node>, m: Node)
    reads KidLists(nodes)
  {
    forall p <- nodes :: m.child !in p.kids.contents
  }

  /** m is the last child of nobody. */
  ghost predicate NobodysLast(nodes: set<Node>, m: Node)
    reads KidLists(nodes)
  {
    forall q <- nodes :: q.kids.tail != m.child
  }

  ghost predicate OrphansUnlinked(nodes: set<Node>)
    reads KidLists(nodes), ChildLinks(nodes)
  {
    forall m <- nodes | Orphan(nodes, m) :: m.child.next == null
  }

  /** The children of every node are a proper list of nodes, no node is the child of two, and only children are linked
      to other children. */
  ghost predicate Tree(nodes: set<Node>)
    reads KidLists(nodes), ChildLinks(nodes)
  {
    KidsAreNodes(nodes) && KidsAreLists(nodes) && OneParent(nodes) && OrphansUnlinked(nodes)
  }

  /** Of all nodes there are, those that are indexed are in their buckets and the others in none. */
  ghost predicate Filed(nodeMap: seq<List<Node>>, indexed: set<Node>, nodes: set<Node>)
    reads nodeMap, ListLinks(nodes), ChildLinks(nodes)`container, KidLists(nodes)`container
  {
    && indexed <= nodes && AllSound(nodes) && Buckets(nodeMap) && Indexed(nodeMap, indexed)
    && forall n <- nodes - indexed :: n.list.next == null
  }

  /** Index and lists of children are proper. A node that is not indexed may still have children or be one. */
  ghost predicate Linked(nodeMap: seq<List<Node>>, indexed: set<Node>, nodes: set<Node>)
    reads nodeMap, ListLinks(nodes), ChildLinks(nodes), KidLists(nodes)
  {
    Filed(nodeMap, indexed, nodes) && Tree(nodes)
  }

  // ----- what leaves a list alone

  twostate predicate SameList(list: List<Node>)
    reads list, list.contents
  {
    && list.Fields() == old(list.Fields())
    && forall k | 0 <= k < |list.contents| :: list.contents[k].next == old(list.contents[k].next)
  }

  twostate lemma ListUntouched(list: List<Node>)
    requires old(list.Valid()) && SameList(list)
    ensures list.Valid()
  {
  }

  /** Nothing has happened to the buckets of these nodes. */
  twostate predicate SameBuckets(nodeMap: seq<List<Node>>, new nodes: set<Node>)
    requires old(allocated(nodes))
    reads nodeMap, ListLinks(nodes)
  {
    && (forall b <- nodeMap :: b.Fields() == old(b.Fields()))
    && (forall n <- nodes :: n.list.next == old(n.list.next))
  }

  twostate lemma IndexUntouched(nodeMap: seq<List<Node>>, new nodes: set<Node>)
    requires old(allocated(nodes))
    requires old(Indexed(nodeMap, nodes)) && SameBuckets(nodeMap, nodes)
    ensures Indexed(nodeMap, nodes)
  {
    forall i | 0 <= i < BUCKETS ensures nodeMap[i].Valid() {
      assert nodeMap[i] in nodeMap;
      assert forall k | 0 <= k < |nodeMap[i].contents| :: nodeMap[i].contents[k] in ListLinks(nodes);
      ListUntouched(nodeMap[i]);
    }
    assert forall i | 0 <= i < BUCKETS :: nodeMap[i] in nodeMap;
  }

  twostate predicate SameKids(nodes: set<Node>)
    reads KidLists(nodes), ChildLinks(nodes)
  {
    forall n <- nodes :: n.kids.Fields() == old(n.kids.Fields()) && n.child.next == old(n.child.next)
  }

  twostate lemma TreeUntouched(nodes: set<Node>)
    requires old(Tree(nodes)) && SameKids(nodes)
    ensures Tree(nodes)
  {
    forall p <- nodes ensures p.kids.Valid() {
      assert forall k | 0 <= k < |p.kids.contents| :: p.kids.contents[k] in ChildLinks(nodes);
      ListUntouched(p.kids);
    }
  }

  /** The links and lists of different nodes, and the buckets, are all different. */
  lemma Apart(nodeMap: seq<List<Node>>, nodes: set<Node>)
    requires AllSound(nodes) && Buckets(nodeMap)
    ensures ListLinks(nodes) !! ChildLinks(nodes)
    ensures forall b <- nodeMap :: b !in KidLists(nodes)
    ensures forall m <- nodes, n <- nodes :: m != n ==> m.list != n.list && m.child != n.child && m.kids != n.kids
  {
  }

  // ----- buckets

  lemma BucketFacts(nodeMap: seq<List<Node>>, nodes: set<Node>, b: nat)
    requires Indexed(nodeMap, nodes) && b < BUCKETS
    ensures |nodeMap| == BUCKETS && nodeMap[b].Valid()
    ensures forall n <- nodes :: Bucket(EffectiveId(n)) == b ==> n.list in nodeMap[b].contents
    ensures forall k | 0 <= k < |nodeMap[b].contents| :: nodeMap[b].contents[k] in ListLinks(nodes)
    ensures forall i, k | 0 <= i < BUCKETS && i != b && 0 <= k < |nodeMap[i].contents| ::
              nodeMap[i].contents[k] !in nodeMap[b].contents
  {
    forall i, k | 0 <= i < BUCKETS && i != b && 0 <= k < |nodeMap[i].contents|
      ensures nodeMap[i].contents[k] !in nodeMap[b].contents
    {
      var n :| n in nodes && n.list == nodeMap[i].contents[k];
      assert nodeMap[i].contents[k] in nodeMap[i].contents;
      assert i == Bucket(EffectiveId(n));
    }
  }

  /** Only bucket b and the links in it have changed. */
  twostate predicate OnlyBucket(nodeMap: seq<List<Node>>, b: nat)
    requires b < |nodeMap|
    reads nodeMap, LinksOf(nodeMap)
  {
    forall i | 0 <= i < |nodeMap| && i != b :: SameList(nodeMap[i])
  }

  twostate lemma IndexPushed(nodeMap: seq<List<Node>>, new nodes: set<Node>, new node: Node)
    requires old(allocated(nodes)) && old(allocated(node))
    requires old(Indexed(nodeMap, nodes)) && AllSound(nodes + {node}) && node !in nodes
    requires var b := Bucket(EffectiveId(node));
             && OnlyBucket(nodeMap, b) && nodeMap[b].Valid()
             && nodeMap[b].contents == old(nodeMap[b].contents) + [node.list]
    ensures Indexed(nodeMap, nodes + {node})
  {
    var b := Bucket(EffectiveId(node));
    forall i | 0 <= i < BUCKETS ensures nodeMap[i].Valid() {
      if i != b {
        ListUntouched(nodeMap[i]);
      }
    }
    assert forall n <- nodes :: n.list != node.list;
  }

  twostate lemma IndexRemoved(nodeMap: seq<List<Node>>, new nodes: set<Node>, new node: Node)
    requires old(allocated(nodes))
    requires old(Indexed(nodeMap, nodes)) && AllSound(nodes) && node in nodes
    requires var b := Bucket(EffectiveId(node));
             && OnlyBucket(nodeMap, b) && nodeMap[b].Valid()
             && nodeMap[b].contents == Without(old(nodeMap[b].contents), node.list)
    ensures Indexed(nodeMap, nodes - {node})
  {
    var b := Bucket(EffectiveId(node));
    WithoutIsExact(old(nodeMap[b].contents), node.list);
    forall i | 0 <= i < BUCKETS ensures nodeMap[i].Valid() {
      if i != b {
        ListUntouched(nodeMap[i]);
      }
    }
    forall i, k | 0 <= i < BUCKETS && 0 <= k < |nodeMap[i].contents|
      ensures nodeMap[i].contents[k] in ListLinks(nodes - {node})
    {
      var l := nodeMap[i].contents[k];
      assert l in nodeMap[i].contents && l in old(nodeMap[i].contents);
      var n :| n in nodes && n.list == l;
      assert n != node;
    }
    assert forall n <- nodes :: n != node ==> n.list != node.list;
  }

  // ----- the tree

  /** A node that is linked to nothing may join. */
  lemma TreeWithNew(nodes: set<Node>, node: Node)
    requires Tree(nodes) && AllSound(nodes + {node}) && node !in nodes && node.Unlinked()
    ensures Tree(nodes + {node}) && Orphan(nodes + {node}, node)
  {
    assert forall p <- nodes :: node.child !in p.kids.contents;
    forall p <- nodes + {node} ensures p.kids.Valid() {
    }
    hide List.Valid, Node.Sound;
    forall m <- nodes | Orphan(nodes + {node}, m) ensures m.child.next == null {
      assert Orphan(nodes, m);
    }
  }

  lemma LinkedWithNew(nodeMap: seq<List<Node>>, indexed: set<Node>, nodes: set<Node>, node: Node)
    requires Linked(nodeMap, indexed, nodes) && node !in nodes && node.Sound() && node.Unlinked()
    ensures Linked(nodeMap, indexed, nodes + {node}) && Orphan(nodes + {node}, node)
  {
    hide Tree, Orphan, Indexed;
    TreeWithNew(nodes, node);
  }

  /** Only the children of p and the links of those that were its children have changed. */
  twostate predicate OnlyKids(nodes: set<Node>, new p: Node)
    requires p in nodes
    reads KidLists(nodes), ChildLinks(nodes)
  {
    && (forall q <- nodes :: q != p ==> q.kids.Fields() == old(q.kids.Fields()))
    && (forall n <- nodes :: n.child !in old(p.kids.contents) ==> n.child.next == old(n.child.next))
  }

  twostate lemma KidStaysValid(nodes: set<Node>, new p: Node, new q: Node)
    requires old(allocated(q)) && p in nodes && q in nodes && q != p && old(Tree(nodes)) && OnlyKids(nodes, p)
    ensures q.kids.Valid()
  {
    forall k | 0 <= k < |q.kids.contents| ensures q.kids.contents[k].next == old(q.kids.contents[k].next) {
      var n :| n in nodes && n.child == q.kids.contents[k];
      assert n.child in old(q.kids.contents);
    }
    ListUntouched(q.kids);
  }

  twostate lemma KidsStayValid(nodes: set<Node>, new p: Node)
    requires p in nodes && old(Tree(nodes)) && OnlyKids(nodes, p) && p.kids.Valid()
    ensures forall q <- nodes :: q.kids.Valid()
  {
    forall q <- nodes ensures q.kids.Valid() {
      if q != p {
        KidStaysValid(nodes, p, q);
      }
    }
  }

  /** What appending m to the children of p does, whatever m is linked to. */
  twostate predicate Appended(nodes: set<Node>, new p: Node, new m: Node)
    requires p in nodes && m in nodes
    reads KidLists(nodes), ChildLinks(nodes)
  {
    && (forall q <- nodes :: q != p ==> q.kids.Fields() == old(q.kids.Fields()))
    && KidsAreNodes(nodes) && p.kids.Chain()
    && (p.kids.Valid() <==> if old(m.child.next) != null then old(p.kids.Valid()) else m.child != old(p.kids.tail))
    && p.kids.contents == (if old(m.child.next) == null && m.child !in old(p.kids.contents)
                           then old(p.kids.contents) + [m.child] else old(p.kids.contents))
    && (forall n <- nodes :: n.child.next != old(n.child.next) ==>
          old(m.child.next) == null && n.child == old(p.kids.tail))
    && (old(m.child.next) != null ==> p.kids.Fields() == old(p.kids.Fields()))
  }

  /** In a proper tree, a link without a successor is the last child of someone or nobody's child. */
  twostate lemma LastOrOrphan(nodes: set<Node>, new m: Node)
    requires old(allocated(m)) && old(Tree(nodes)) && m in nodes
    ensures old(m.child.next == null && NobodysLast(nodes, m)) <==> old(Orphan(nodes, m))
    ensures forall q <- nodes | old(q.kids.tail) == m.child ::
              old(m.child.next) == null && m.child in old(q.kids.contents)
  {
    forall q <- nodes | m.child in old(q.kids.contents)
      ensures old(m.child.next) == null ==> old(q.kids.tail) == m.child
    {
      var k :| 0 <= k < |old(q.kids.contents)| && old(q.kids.contents)[k] == m.child;
      assert old(q.kids.Valid());
    }
    forall q <- nodes | old(q.kids.tail) == m.child
      ensures old(m.child.next) == null && m.child in old(q.kids.contents)
    {
      assert old(q.kids.Valid());
    }
  }

  /** Appending a child keeps the tree proper exactly if the child is the last child of nobody, not even of p. */
  twostate lemma AppendingKeepsTree(nodes: set<Node>, new p: Node, new m: Node)
    requires p in nodes && m in nodes && AllSound(nodes) && old(Tree(nodes)) && Appended(nodes, p, m)
    ensures Tree(nodes) <==> old(NobodysLast(nodes, m))
  {
    LastOrOrphan(nodes, m);
    if old(m.child.next) != null {
      TreeUntouched(nodes);
    } else if old(NobodysLast(nodes, m)) {
      TreeAdopted(nodes, p, m);
    } else {
      var q :| q in nodes && old(q.kids.tail) == m.child;
    }
  }

  twostate lemma TreeAdopted(nodes: set<Node>, new p: Node, new m: Node)
    requires p in nodes && m in nodes && AllSound(nodes) && old(Tree(nodes)) && OnlyKids(nodes, p)
    requires old(Orphan(nodes, m))
    requires p.kids.Valid() && p.kids.contents == old(p.kids.contents) + [m.child]
    ensures Tree(nodes)
  {
    KidsStayValid(nodes, p);
    hide List.Valid;
    assert forall l <- p.kids.contents :: l in old(p.kids.contents) || l == m.child;
    OrphansStillUnlinked(nodes, p, m);
    NewChildHasOneParent(nodes, p, m);
  }

  twostate lemma OrphansStillUnlinked(nodes: set<Node>, new p: Node, new m: Node)
    requires p in nodes && m in nodes && AllSound(nodes) && old(OrphansUnlinked(nodes)) && OnlyKids(nodes, p)
    requires p.kids.contents == old(p.kids.contents) + [m.child]
    ensures OrphansUnlinked(nodes)
  {
    assert m.child == p.kids.contents[|p.kids.contents| - 1];
    forall n <- nodes | Orphan(nodes, n) ensures n.child.next == null {
      forall q <- nodes ensures n.child !in old(q.kids.contents) {
        assert n.child !in q.kids.contents;
      }
      assert old(Orphan(nodes, n));
    }
  }

  twostate lemma NewChildHasOneParent(nodes: set<Node>, new p: Node, new m: Node)
    requires p in nodes && m in nodes && old(OneParent(nodes)) && old(Orphan(nodes, m)) && OnlyKids(nodes, p)
    requires p.kids.contents == old(p.kids.contents) + [m.child]
    ensures OneParent(nodes)
  {
    forall q <- nodes, r <- nodes, l | l in q.kids.contents && l in r.kids.contents ensures q == r {
      assert q != p ==> l in old(q.kids.contents);
      assert r != p ==> l in old(r.kids.contents);
    }
  }

  /** The children of p are fewer by m. */
  twostate predicate OneLess(nodes: set<Node>, new p: Node, new m: Node)
    requires p in nodes
    reads KidLists(nodes), ChildLinks(nodes)
  {
    && (forall q <- nodes :: q != p ==> q.kids.contents == old(q.kids.contents))
    && (forall l <- p.kids.contents :: l in old(p.kids.contents) && l != m.child)
    && (forall l <- old(p.kids.contents) :: l != m.child ==> l in p.kids.contents)
  }

  twostate lemma KidsStayNodes(nodes: set<Node>, new p: Node, new m: Node)
    requires p in nodes && old(Tree(nodes)) && OneLess(nodes, p, m)
    ensures KidsAreNodes(nodes)
  {
    forall q, k | q in nodes && 0 <= k < |q.kids.contents| ensures q.kids.contents[k] in ChildLinks(nodes) {
      assert q.kids.contents[k] in old(q.kids.contents);
    }
  }

  twostate lemma StillOneParent(nodes: set<Node>, new p: Node, new m: Node)
    requires p in nodes && old(Tree(nodes)) && OneLess(nodes, p, m)
    ensures OneParent(nodes)
  {
    forall q <- nodes, r <- nodes, l | l in q.kids.contents && l in r.kids.contents ensures q == r {
      assert l in old(q.kids.contents) && l in old(r.kids.contents);
    }
  }

  twostate lemma OrphansStayUnlinked(nodes: set<Node>, new p: Node, new m: Node)
    requires p in nodes && m in nodes && AllSound(nodes) && old(Tree(nodes))
    requires OnlyKids(nodes, p) && OneLess(nodes, p, m) && m.child.next == null
    ensures OrphansUnlinked(nodes)
  {
    forall n <- nodes | Orphan(nodes, n) ensures n.child.next == null {
      if n != m {
        assert n.child !in p.kids.contents && n.child !in old(p.kids.contents);
        assert old(Orphan(nodes, n));
      }
    }
  }

  twostate lemma TreeAbandoned(nodes: set<Node>, new p: Node, new m: Node)
    requires p in nodes && m in nodes && AllSound(nodes) && old(Tree(nodes)) && OnlyKids(nodes, p)
    requires p.kids.Valid() && p.kids.contents == Without(old(p.kids.contents), m.child) && m.child.next == null
    ensures Tree(nodes)
  {
    WithoutIsExact(old(p.kids.contents), m.child);
    KidsStayNodes(nodes, p, m);
    KidsStayValid(nodes, p);
    StillOneParent(nodes, p, m);
    OrphansStayUnlinked(nodes, p, m);
  }

  twostate lemma RemovingKeepsTree(nodes: set<Node>, new p: Node, new m: Node)
    requires p in nodes && m in nodes && AllSound(nodes) && old(Tree(nodes)) && OnlyKids(nodes, p)
    requires p.kids.Valid() && p.kids.contents == Without(old(p.kids.contents), m.child)
    requires m.child in old(p.kids.contents) ==> m.child.next == null
    ensures Tree(nodes)
  {
    hide Without;
    if m.child in old(p.kids.contents) {
      TreeAbandoned(nodes, p, m);
    } else {
      RemovingNothing(nodes, p, m);
    }
  }

  twostate lemma RemovingNothing(nodes: set<Node>, new p: Node, new m: Node)
    requires p in nodes && m in nodes && old(Tree(nodes)) && OnlyKids(nodes, p) && p.kids.Valid()
    requires p.kids.contents == old(p.kids.contents)
    ensures Tree(nodes)
  {
    KidsStayValid(nodes, p);
    hide List.Valid;
    forall n <- nodes | Orphan(nodes, n) ensures n.child.next == null {
      assert old(Orphan(nodes, n));
    }
  }

  lemma KidsOf(nodes: set<Node>, p: Node)
    requires Tree(nodes) && p in nodes
    ensures p.kids.Valid() && forall k | 0 <= k < |p.kids.contents| :: p.kids.contents[k] in ChildLinks(nodes)
  {
  }

  // ----- the four ways in which the lists change

  method PushToBucket(nodeMap: seq<List<Node>>, ghost indexed: set<Node>, ghost nodes: set<Node>, node: Node)
    requires Linked(nodeMap, indexed, nodes) && node in nodes - indexed
    modifies nodeMap`head, nodeMap`tail, nodeMap`contents, ListLinks(nodes)`next
    ensures Linked(nodeMap, indexed + {node}, nodes) && SameKids(nodes)
  {
    hide Indexed, Tree, List.Valid;
    var b := Bucket(EffectiveId(node));
    Apart(nodeMap, nodes);
    BucketFacts(nodeMap, indexed, b);
    nodeMap[b].ValidChain();
    nodeMap[b].PushBack(node.list);
    IndexPushed(nodeMap, indexed, node);
    TreeUntouched(nodes);
  }

  method RemoveFromBucket(nodeMap: seq<List<Node>>, ghost indexed: set<Node>, ghost nodes: set<Node>, node: Node)
    requires Linked(nodeMap, indexed, nodes) && node in indexed
    modifies nodeMap`head, nodeMap`tail, nodeMap`contents, ListLinks(nodes)`next
    ensures Linked(nodeMap, indexed - {node}, nodes) && SameKids(nodes)
  {
    hide Indexed, Tree, List.Valid;
    var b := Bucket(EffectiveId(node));
    Apart(nodeMap, nodes);
    BucketFacts(nodeMap, indexed, b);
    var _ := nodeMap[b].Remove(node.list);
    IndexRemoved(nodeMap, indexed, node);
    TreeUntouched(nodes);
  }

  /** addChild, whatever lists the child is in. */
  method AddChild(nodeMap: seq<List<Node>>, ghost indexed: set<Node>, ghost nodes: set<Node>, p: Node, m: Node)
    requires Filed(nodeMap, indexed, nodes) && p in nodes && m in nodes && p.kids.Chain() && KidsAreNodes(nodes)
    modifies p.kids`head, p.kids`tail, p.kids`contents, ChildLinks(nodes)`next
    ensures Filed(nodeMap, indexed, nodes) && SameBuckets(nodeMap, indexed) && Appended(nodes, p, m)
    ensures old(Tree(nodes)) ==> (Tree(nodes) <==> old(NobodysLast(nodes, m)))
  {
    hide Indexed, Tree, NobodysLast, List.Valid, List.Chain;
    Apart(nodeMap, nodes);
    p.kids.PushBack(m.child);
    IndexUntouched(nodeMap, indexed);
    if old(Tree(nodes)) {
      AppendingKeepsTree(nodes, p, m);
    }
  }

  method RemoveChild(nodeMap: seq<List<Node>>, ghost indexed: set<Node>, ghost nodes: set<Node>, p: Node, m: Node)
    requires Linked(nodeMap, indexed, nodes) && p in nodes && m in nodes
    modifies p.kids`head, p.kids`tail, p.kids`contents, ChildLinks(nodes)`next
    ensures Linked(nodeMap, indexed, nodes) && SameBuckets(nodeMap, indexed)
    ensures forall q <- nodes ::
              q.kids.contents == if q == p then Without(old(p.kids.contents), m.child) else old(q.kids.contents)
  {
    hide Indexed, Tree, List.Valid;
    Apart(nodeMap, nodes);
    KidsOf(nodes, p);
    var _ := p.kids.Remove(m.child);
    IndexUntouched(nodeMap, indexed);
    RemovingKeepsTree(nodes, p, m);
  }

  // ----- looking nodes up

  /** findById: all nodes that are not record members, whatever bucket they are in, and no others. */
  method FindById(nodeMap: seq<List<Node>>, ghost indexed: set<Node>, ghost nodes: set<Node>, id: nat)
    returns (node: Option<Node>)
    requires Filed(nodeMap, indexed, nodes)
    ensures Filed(nodeMap, indexed, nodes)
    ensures match node
            case Some(n) => n in indexed && !n.isMember && n.id == id
            case None => forall n <- indexed :: !n.isMember ==> n.id != id
  {
    hide Filed, List.Valid;
    BucketStart(nodeMap, indexed, nodes, Bucket(id));
    var link := nodeMap[Bucket(id)].head;
    ghost var k := 0;
    ghost var contents := nodeMap[Bucket(id)].contents;
    while link != null
      invariant Filed(nodeMap, indexed, nodes) && k <= |contents| && link == At(contents, k)
      invariant forall j | 0 <= j < k :: contents[j].container.Some? && contents[j].container.value.id != id
      decreases |contents| - k
    {
      InBucket(nodeMap, indexed, nodes, Bucket(id), k);
      var n := link.container.value;
      if n.id == id {
        if n.isMember {
          MembersAreElsewhere(n.id, n.parentId);
          assert false;
        }
        return Some(n);
      }
      link := link.next;
      k := k + 1;
    }
    assert forall n <- indexed :: !n.isMember && n.id == id ==> n.list in contents;
    return None;
  }

  lemma BucketStart(nodeMap: seq<List<Node>>, indexed: set<Node>, nodes: set<Node>, b: nat)
    requires Filed(nodeMap, indexed, nodes) && b < BUCKETS
    ensures |nodeMap| == BUCKETS && nodeMap[b].head == At(nodeMap[b].contents, 0)
    ensures forall n <- indexed :: Bucket(EffectiveId(n)) == b ==> n.list in nodeMap[b].contents
    ensures forall n <- indexed :: n.list.container == Some(n)
  {
  }

  lemma InBucket(nodeMap: seq<List<Node>>, indexed: set<Node>, nodes: set<Node>, i: nat, k: nat)
    requires Filed(nodeMap, indexed, nodes) && i < BUCKETS && |nodeMap| == BUCKETS && k < |nodeMap[i].contents|
    ensures var l := nodeMap[i].contents[k];
            && l.next == At(nodeMap[i].contents, k + 1)
            && l.container.Some? && l.container.value in indexed && l == l.container.value.list
            && i == Bucket(EffectiveId(l.container.value))
  {
    var l := nodeMap[i].contents[k];
    var n :| n in indexed && n.list == l;
    assert l in nodeMap[i].contents;
  }

  // ----- all nodes

  /** The list i holds the links of the nodes in bucket i, and no others. */
  lemma BucketIsExact(nodeMap: seq<List<Node>>, indexed: set<Node>, nodes: set<Node>, i: nat)
    requires Filed(nodeMap, indexed, nodes) && i < BUCKETS && |nodeMap| == BUCKETS
    ensures Distinct(nodeMap[i].contents)
    ensures forall l <- nodeMap[i].contents :: l in ListLinks(indexed)
    ensures forall n <- indexed :: n.list in nodeMap[i].contents <==> Bucket(EffectiveId(n)) == i
  {
    assert nodeMap[i].Valid();
    assert Distinct(nodeMap[i].contents);
    hide List.Valid;
    forall l <- nodeMap[i].contents ensures l in ListLinks(indexed) {
      var k :| 0 <= k < |nodeMap[i].contents| && nodeMap[i].contents[k] == l;
    }
  }

  lemma {:induction false} FlatIsExact(nodeMap: seq<List<Node>>, indexed: set<Node>, nodes: set<Node>, i: nat)
    requires Filed(nodeMap, indexed, nodes) && i <= BUCKETS && |nodeMap| == BUCKETS
    ensures Distinct(Flat(nodeMap, i))
    ensures forall l <- Flat(nodeMap, i) :: l in ListLinks(indexed)
    ensures forall n <- indexed :: n.list in Flat(nodeMap, i) <==> Bucket(EffectiveId(n)) >= i
    decreases BUCKETS - i
  {
    hide Filed, Distinct, Bucket;
    if i < BUCKETS {
      FlatIsExact(nodeMap, indexed, nodes, i + 1);
      BucketIsExact(nodeMap, indexed, nodes, i);
      DistinctTogether(nodeMap[i].contents, Flat(nodeMap, i + 1));
    } else {
      NothingIsDistinct<Link<Node>>();
    }
  }

  lemma NothingIsDistinct<T>()
    ensures Distinct<T>([])
  {
  }

  lemma DistinctTogether<T>(a: seq<T>, b: seq<T>)
    requires Distinct(a) && Distinct(b) && forall x <- a :: x !in b
    ensures Distinct(a + b)
  {
    forall i, j | 0 <= i < j < |a + b| ensures (a + b)[i] != (a + b)[j] {
      if i < |a| <= j {
        assert (a + b)[i] == a[i] && a[i] in a && (a + b)[j] == b[j - |a|] && b[j - |a|] in b;
      }
    }
  }

  /** Iterating over the registry visits every node exactly once. */
  lemma EachNodeIsVisitedOnce(nodeMap: seq<List<Node>>, indexed: set<Node>, nodes: set<Node>)
    requires Filed(nodeMap, indexed, nodes)
    ensures |nodeMap| == BUCKETS
    ensures var all := Flat(nodeMap, 0);
            Distinct(all) && (set l | l in all) == ListLinks(indexed)
  {
    FlatIsExact(nodeMap, indexed, nodes, 0);
  }

  twostate lemma IteratorUntouched(it: FlatteningIterator<Node>, new nodes: set<Node>)
    requires old(allocated(nodes)) && old(it.Valid()) && old(Indexed(it.lists, nodes)) && SameBuckets(it.lists, nodes)
    requires it.outer == old(it.outer) && it.inner == old(it.inner) && it.k == old(it.k)
    ensures it.Valid() && it.Rest() == old(it.Rest()) && (!it.AtEnd() ==> it.Current() == old(it.Current()))
  {
    assert it.outer < |it.lists| ==> it.lists[it.outer] in it.lists;
    IndexUntouched(it.lists, nodes);
    BucketsAreLists(it.lists, nodes);
    hide Indexed, List.Valid, AllValid, Flat;
    if it.outer < |it.lists| {
      FlatUntouched(it.lists, it.outer + 1);
    }
  }

  lemma BucketsAreLists(nodeMap: seq<List<Node>>, nodes: set<Node>)
    requires Indexed(nodeMap, nodes)
    ensures AllValid(nodeMap)
  {
  }

  twostate lemma {:induction false} FlatUntouched(lists: seq<List<Node>>, new i: nat)
    requires i <= |lists| && forall b <- lists :: b.Fields() == old(b.Fields())
    ensures Flat(lists, i) == old(Flat(lists, i))
    decreases |lists| - i
  {
    if i < |lists| {
      assert lists[i] in lists;
      FlatUntouched(lists, i + 1);
    }
  }

  lemma NextIsNew<T>(visited: seq<T>, rest: seq<T>)
    requires Distinct(visited + rest) && rest != []
    ensures rest[0] !in visited && visited + [rest[0]] + rest[1..] == visited + rest
  {
    assert (visited + rest)[|visited|] == rest[0];
    assert forall i | 0 <= i < |visited| :: (visited + rest)[i] == visited[i];
  }

  // ----- adopting

  /** What adopting began with. */
  datatype Before = Before(kids: seq<Link<Node>>, next: map<Node, Link?<Node>>)
  {
    predicate Last(m: Node) { kids != [] && m.child == kids[|kids| - 1] }
  }

  ghost function Now(nodes: set<Node>, node: Node): Before
    reads node.kids, ChildLinks(nodes)
  {
    Before(node.kids.contents, map m | m in nodes :: m.child.next)
  }

  /** Whoever names the node and had no successor is its child now, in addition to those that were before. */
  ghost predicate Adopting(nodes: set<Node>, node: Node, seen: set<Node>, was: Before)
    requires node in nodes && nodes <= was.next.Keys
    reads KidLists(nodes), ChildLinks(nodes)
  {
    && KidsAreNodes(nodes) && node.kids.Chain()
    && was.kids <= node.kids.contents
    && (forall m <- nodes ::
          m.child in node.kids.contents
          <==> m.child in was.kids || (m in seen && Names(m, node) && was.next[m] == null))
    && (forall m <- nodes | m.child !in node.kids.contents :: m.child.next == was.next[m])
    && (node.kids.Valid() <==> node.kids.contents != was.kids || forall m <- seen | Names(m, node) :: !was.Last(m))
  }

  lemma AdoptingBegins(nodes: set<Node>, node: Node)
    requires node in nodes && KidsAreNodes(nodes) && node.kids.Valid()
    ensures Adopting(nodes, node, {}, Now(nodes, node))
  {
    node.kids.ValidChain();
  }

  twostate lemma AdoptingGoesOn(nodes: set<Node>, new node: Node, new seen: set<Node>, new was: Before, new n: Node)
    requires old(allocated(seen)) && old(allocated(was))
    requires node in nodes && n in nodes && n !in seen && Names(n, node) && nodes <= was.next.Keys && AllSound(nodes)
    requires old(Adopting(nodes, node, seen, was)) && Appended(nodes, node, n)
    requires forall m <- nodes :: was.Last(m) ==> was.next[m] == null
    ensures Adopting(nodes, node, seen + {n}, was)
  {
  }

  lemma AdoptingSkips(nodes: set<Node>, node: Node, seen: set<Node>, was: Before, n: Node)
    requires node in nodes && nodes <= was.next.Keys && Adopting(nodes, node, seen, was) && !Names(n, node)
    ensures Adopting(nodes, node, seen + {n}, was)
  {
  }

  /** Nothing but the children of one node has changed. */
  twostate predicate OtherKidsSame(nodes: set<Node>, new node: Node)
    reads KidLists(nodes)
  {
    forall q <- nodes :: q != node ==> q.kids.Fields() == old(q.kids.Fields())
  }

  /** The node under the iterator. */
  method AdoptOne(nodeMap: seq<List<Node>>, ghost indexed: set<Node>, ghost nodes: set<Node>, node: Node,
                  it: FlatteningIterator<Node>, ghost seen: set<Node>, ghost was: Before) returns (n: Node)
    requires Filed(nodeMap, indexed, nodes) && node in nodes && nodes <= was.next.Keys
    requires it.Valid() && it.lists == nodeMap && !it.AtEnd() && forall m <- seen :: m.list != it.Current()
    requires Adopting(nodes, node, seen, was) && forall m <- nodes :: was.Last(m) ==> was.next[m] == null
    modifies node.kids`head, node.kids`tail, node.kids`contents, ChildLinks(nodes)`next
    ensures Filed(nodeMap, indexed, nodes) && SameBuckets(nodeMap, indexed) && OtherKidsSame(nodes, node)
    ensures n in indexed && n.list == old(it.Current()) && Adopting(nodes, node, seen + {n}, was)
  {
    var link := it.Current();
    InBucket(nodeMap, indexed, nodes, it.outer, it.k);
    n := link.container.value;
    hide Filed, Adopting, FlatteningIterator.Valid, List.Chain;
    if n.parentId == node.id {
      AdoptingMeans(nodes, node, seen, was);
      AddChild(nodeMap, indexed, nodes, node, n);
      SoundIfFiled(nodeMap, indexed, nodes);
      AdoptingGoesOn(nodes, node, seen, was, n);
    } else {
      AdoptingSkips(nodes, node, seen, was, n);
    }
  }

  lemma AdoptingMeans(nodes: set<Node>, node: Node, seen: set<Node>, was: Before)
    requires node in nodes && nodes <= was.next.Keys && Adopting(nodes, node, seen, was)
    ensures node.kids.Chain() && KidsAreNodes(nodes)
  {
  }

  lemma SoundIfFiled(nodeMap: seq<List<Node>>, indexed: set<Node>, nodes: set<Node>)
    requires Filed(nodeMap, indexed, nodes)
    ensures AllSound(nodes) && indexed <= nodes
  {
  }

  method AdoptNext(nodeMap: seq<List<Node>>, ghost indexed: set<Node>, ghost nodes: set<Node>, node: Node,
                   it: FlatteningIterator<Node>, ghost seen: set<Node>, ghost was: Before) returns (ghost n: Node)
    requires Filed(nodeMap, indexed, nodes) && node in nodes && nodes <= was.next.Keys
    requires it.Valid() && it.lists == nodeMap && !it.AtEnd() && forall m <- seen :: m.list != it.Current()
    requires Adopting(nodes, node, seen, was) && forall m <- nodes :: was.Last(m) ==> was.next[m] == null
    modifies node.kids`head, node.kids`tail, node.kids`contents, ChildLinks(nodes)`next, it`outer, it`inner, it`k
    ensures Filed(nodeMap, indexed, nodes) && OtherKidsSame(nodes, node)
    ensures n in indexed && n.list == old(it.Current()) && Adopting(nodes, node, seen + {n}, was)
    ensures it.Valid() && it.Rest() == old(it.Rest()[1..])
  {
    hide Indexed, Tree, FlatteningIterator.Within, FlatteningIterator.Rest, Adopting;
    n := AdoptOne(nodeMap, indexed, nodes, node, it, seen, was);
    IteratorUntouched(it, indexed);
    MoveOn(nodeMap, indexed, nodes, node, it, seen + {n}, was);
  }

  method MoveOn(nodeMap: seq<List<Node>>, ghost indexed: set<Node>, ghost nodes: set<Node>, node: Node,
                it: FlatteningIterator<Node>, ghost seen: set<Node>, ghost was: Before)
    requires Filed(nodeMap, indexed, nodes) && node in nodes && nodes <= was.next.Keys
    requires it.Valid() && it.lists == nodeMap && !it.AtEnd() && Adopting(nodes, node, seen, was)
    modifies it`outer, it`inner, it`k
    ensures Filed(nodeMap, indexed, nodes) && Adopting(nodes, node, seen, was)
    ensures it.Valid() && it.Rest() == old(it.Rest()[1..])
  {
    hide Indexed, FlatteningIterator.Within, FlatteningIterator.Rest, Adopting;
    it.Advance();
    IndexUntouched(nodeMap, indexed);
    AdoptingUntouched(nodes, node, seen, was);
  }

  twostate lemma AdoptingUntouched(nodes: set<Node>, new node: Node, new seen: set<Node>, new was: Before)
    requires old(allocated(seen)) && old(allocated(was)) && node in nodes && nodes <= was.next.Keys
    requires old(Adopting(nodes, node, seen, was)) && SameKids(nodes)
    ensures Adopting(nodes, node, seen, was)
  {
  }

  method Begin(nodeMap: seq<List<Node>>, ghost indexed: set<Node>, ghost nodes: set<Node>)
    returns (it: FlatteningIterator<Node>)
    requires Filed(nodeMap, indexed, nodes)
    ensures Filed(nodeMap, indexed, nodes)
    ensures fresh(it) && it.Valid() && it.lists == nodeMap && it.Rest() == old(Flat(nodeMap, 0))
  {
    it := new FlatteningIterator<Node>(nodeMap);
  }

  /** The second half of registerNode: the children of every node that names the new one are appended, as far as they
      have no successor. */
  method AdoptAll(nodeMap: seq<List<Node>>, ghost indexed: set<Node>, ghost nodes: set<Node>, node: Node)
    requires Filed(nodeMap, indexed, nodes) && node in nodes && KidsAreNodes(nodes) && node.kids.Valid()
    modifies node.kids`head, node.kids`tail, node.kids`contents, ChildLinks(nodes)`next
    ensures Filed(nodeMap, indexed, nodes) && Adopted(nodes, indexed, node)
  {
    ghost var all := Flat(nodeMap, 0);
    EachNodeIsVisitedOnce(nodeMap, indexed, nodes);
    var it := Begin(nodeMap, indexed, nodes);
    ghost var was := Now(nodes, node);
    assert was == old(Now(nodes, node));
    LastHasNoNext(nodes, node);
    AdoptingBegins(nodes, node);
    AdoptRest(nodeMap, indexed, nodes, node, it, was);
    SoundIfFiled(nodeMap, indexed, nodes);
  }

  /** These are the nodes whose links have been visited. */
  ghost predicate Seen(seen: set<Node>, visited: seq<Link<Node>>) {
    (forall m <- seen :: m.list in visited) && forall l <- visited :: l in ListLinks(seen)
  }

  lemma SeenOneMore(seen: set<Node>, visited: seq<Link<Node>>, n: Node)
    requires Seen(seen, visited)
    ensures Seen(seen + {n}, visited + [n.list])
  {
  }

  lemma NotSeen(seen: set<Node>, visited: seq<Link<Node>>, link: Link<Node>)
    requires Seen(seen, visited) && link !in visited
    ensures forall m <- seen :: m.list != link
  {
  }

  /** The loop over the registry. */
  method AdoptRest(nodeMap: seq<List<Node>>, ghost indexed: set<Node>, ghost nodes: set<Node>, node: Node,
                   it: FlatteningIterator<Node>, ghost was: Before)
    requires Filed(nodeMap, indexed, nodes) && node in nodes && nodes <= was.next.Keys
    requires it.Valid() && it.lists == nodeMap && Distinct(it.Rest()) && (set l | l in it.Rest()) == ListLinks(indexed)
    requires Adopting(nodes, node, {}, was) && forall m <- nodes :: was.Last(m) ==> was.next[m] == null
    modifies node.kids`head, node.kids`tail, node.kids`contents, ChildLinks(nodes)`next, it`outer, it`inner, it`k
    ensures Filed(nodeMap, indexed, nodes) && OtherKidsSame(nodes, node) && Adopting(nodes, node, indexed, was)
  {
    hide Filed, Flat, FlatteningIterator.Within, FlatteningIterator.Rest, Distinct, Adopting, Seen;
    ghost var all := it.Rest();
    ghost var visited: seq<Link<Node>> := [];
    ghost var seen: set<Node> := {};
    NothingSeen();
    while !it.AtEnd()
      invariant it.Valid() && it.lists == nodeMap && visited + it.Rest() == all
      invariant Filed(nodeMap, indexed, nodes) && OtherKidsSame(nodes, node)
      invariant Adopting(nodes, node, seen, was)
      invariant seen <= indexed && Seen(seen, visited)
      decreases |it.Rest()|
    {
      it.EndsWhenAllVisited();
      NextIsNew(visited, it.Rest());
      NotSeen(seen, visited, it.Current());
      ghost var n := AdoptNext(nodeMap, indexed, nodes, node, it, seen, was);
      SeenOneMore(seen, visited, n);
      visited, seen := visited + [n.list], seen + {n};
    }
    it.EndsWhenAllVisited();
    assert visited == all;
    SoundIfFiled(nodeMap, indexed, nodes);
    AllSeen(indexed, nodes, seen, visited);
  }

  lemma NothingSeen()
    ensures Seen({}, [])
  {
  }

  lemma LastHasNoNext(nodes: set<Node>, node: Node)
    requires node.kids.Valid()
    ensures var was := Now(nodes, node);
            forall m <- nodes :: was.Last(m) ==> was.next[m] == null
  {
  }

  lemma AllSeen(indexed: set<Node>, nodes: set<Node>, seen: set<Node>, visited: seq<Link<Node>>)
    requires Seen(seen, visited) && seen <= indexed && (set l | l in visited) == ListLinks(indexed)
    requires AllSound(nodes) && indexed <= nodes
    ensures seen == indexed
  {
    forall m <- indexed ensures m in seen {
      assert m.list in ListLinks(indexed) && m.list in visited;
      assert m.list in ListLinks(seen);
    }
  }

  /** Nobody who names the node is the last child of another; and if the last of those that the node still has names it,
      then so does a node that is nobody's child. */
  ghost predicate AdoptsWell(indexed: set<Node>, nodes: set<Node>, node: Node)
    reads KidLists(nodes), node.kids
  {
    && (forall m <- indexed, q <- nodes | Names(m, node) && q != node :: q.kids.tail != m.child)
    && ((exists m <- indexed :: Names(m, node) && node.kids.tail == m.child) ==>
          exists m <- indexed :: Names(m, node) && Orphan(nodes, m))
  }

  /** All of this has been done. */
  twostate predicate Adopted(nodes: set<Node>, new indexed: set<Node>, new node: Node)
    requires old(allocated(node))
    reads KidLists(nodes), ChildLinks(nodes), ListLinks(nodes)`container
  {
    && node in nodes && indexed <= nodes && AllSound(nodes)
    && old(KidsAreNodes(nodes)) && old(node.kids.Valid())
    && OtherKidsSame(nodes, node) && Adopting(nodes, node, indexed, old(Now(nodes, node)))
  }

  /** Who has become whose child, and whose link has changed. */
  twostate lemma WhoIsAdopted(nodes: set<Node>, new indexed: set<Node>, new node: Node)
    requires old(allocated(node)) && Adopted(nodes, indexed, node)
    ensures forall q <- nodes | q != node :: q.kids.Fields() == old(q.kids.Fields())
    ensures forall m <- nodes ::
              m.child in node.kids.contents
              <==> m.child in old(node.kids.contents) || (m in indexed && Names(m, node) && old(m.child.next) == null)
    ensures forall m <- nodes | m.child !in node.kids.contents :: m.child.next == old(m.child.next)
    ensures KidsAreNodes(nodes)
  {
  }

  twostate lemma OthersStayLists(nodes: set<Node>, new indexed: set<Node>, new node: Node, new q: Node)
    requires old(allocated(node)) && old(allocated(q)) && Adopted(nodes, indexed, node) && OneParent(nodes)
    requires q in nodes && q != node
    ensures q.kids.Valid() <==> old(q.kids.Valid())
  {
    WhoIsAdopted(nodes, indexed, node);
    hide Adopted;
    forall k | 0 <= k < |q.kids.contents| ensures q.kids.contents[k].next == old(q.kids.contents[k].next) {
      assert q.kids.contents[k] in q.kids.contents;
      var n :| n in nodes && n.child == q.kids.contents[k];
    }
  }

  twostate lemma WasTree(nodes: set<Node>, new indexed: set<Node>, new node: Node)
    requires old(allocated(node)) && Adopted(nodes, indexed, node) && Tree(nodes)
    ensures old(Tree(nodes))
  {
    WhoIsAdopted(nodes, indexed, node);
    WasOneParent(nodes, indexed, node);
    forall q <- nodes ensures old(q.kids.Valid()) {
      if q != node {
        OthersStayLists(nodes, indexed, node, q);
      }
    }
    hide Adopted, List.Valid, OneParent;
    forall m <- nodes | old(Orphan(nodes, m)) ensures old(m.child.next) == null {
      if m.child !in node.kids.contents {
        assert Orphan(nodes, m);
      }
    }
  }

  twostate lemma WasOneParent(nodes: set<Node>, new indexed: set<Node>, new node: Node)
    requires old(allocated(node)) && Adopted(nodes, indexed, node) && OneParent(nodes)
    ensures old(OneParent(nodes))
  {
    WhoIsAdopted(nodes, indexed, node);
    assert old(KidsAreNodes(nodes));
    hide Adopted;
    forall q <- nodes, r <- nodes, l | l in old(q.kids.contents) && l in old(r.kids.contents) ensures q == r {
      assert l in ChildLinks(nodes);
      assert l in q.kids.contents && l in r.kids.contents;
    }
  }

  twostate lemma AdoptedWell(nodes: set<Node>, new indexed: set<Node>, new node: Node)
    requires old(allocated(indexed)) && old(allocated(node)) && Adopted(nodes, indexed, node)
    requires old(Tree(nodes)) && Tree(nodes)
    ensures old(AdoptsWell(indexed, nodes, node))
  {
    WhoIsAdopted(nodes, indexed, node);
    forall m <- indexed, q <- nodes | Names(m, node) && q != node ensures old(q.kids.tail) != m.child {
      LastOrOrphan(nodes, m);
    }
    if m :| m in indexed && Names(m, node) && old(node.kids.tail) == m.child {
      var f := NewChild(nodes, indexed, node, m);
      assert Names(f, node) && old(Orphan(nodes, f));
    }
  }

  /** If the list is proper and its old last child has been visited, there is a new one. */
  twostate lemma NewChild(nodes: set<Node>, new indexed: set<Node>, new node: Node, new m: Node) returns (f: Node)
    requires old(allocated(indexed)) && old(allocated(node)) && Adopted(nodes, indexed, node)
    requires old(Tree(nodes)) && Tree(nodes)
    requires old(allocated(m)) && m in indexed && Names(m, node) && old(node.kids.tail) == m.child
    ensures old(allocated(f)) && f in indexed && Names(f, node) && old(Orphan(nodes, f))
  {
    WhoIsAdopted(nodes, indexed, node);
    var kids, n := node.kids.contents, |old(node.kids.contents)|;
    LongerNow(nodes, indexed, node, m);
    hide Adopted, List.Valid;
    assert kids[n] in kids && kids[n] in ChildLinks(nodes);
    f :| f in nodes && f.child == kids[n];
    forall q <- nodes ensures f.child !in old(q.kids.contents) {
      if q != node {
        assert q.kids.contents == old(q.kids.contents);
        assert f.child in q.kids.contents ==> q == node;
      }
    }
  }

  twostate lemma LongerNow(nodes: set<Node>, new indexed: set<Node>, new node: Node, new m: Node)
    requires old(allocated(indexed)) && old(allocated(node)) && Adopted(nodes, indexed, node) && node.kids.Valid()
    requires old(allocated(m)) && m in indexed && Names(m, node) && old(node.kids.tail) == m.child
    ensures |node.kids.contents| > |old(node.kids.contents)|
    ensures node.kids.contents[|old(node.kids.contents)|] !in old(node.kids.contents)
  {
    assert old(Now(nodes, node)).Last(m);
  }

  twostate lemma StaysTree(nodes: set<Node>, new indexed: set<Node>, new node: Node)
    requires old(allocated(indexed)) && old(allocated(node)) && Adopted(nodes, indexed, node)
    requires old(Tree(nodes)) && old(AdoptsWell(indexed, nodes, node))
    ensures Tree(nodes)
  {
    WhoIsAdopted(nodes, indexed, node);
    StaysOneParent(nodes, indexed, node);
    forall q <- nodes ensures q.kids.Valid() {
      if q != node {
        OthersStayLists(nodes, indexed, node, q);
      } else {
        StaysList(nodes, indexed, node);
      }
    }
    hide Adopted, List.Valid;
    forall m <- nodes | Orphan(nodes, m) ensures m.child.next == null {
      assert m.child !in node.kids.contents;
      assert old(Orphan(nodes, m)) by {
        forall q <- nodes ensures m.child !in old(q.kids.contents) {
          assert m.child !in q.kids.contents;
        }
      }
    }
  }

  twostate lemma StaysOneParent(nodes: set<Node>, new indexed: set<Node>, new node: Node)
    requires old(allocated(indexed)) && old(allocated(node)) && Adopted(nodes, indexed, node)
    requires old(Tree(nodes)) && old(AdoptsWell(indexed, nodes, node))
    ensures OneParent(nodes)
  {
    WhoIsAdopted(nodes, indexed, node);
    hide Adopted;
    forall q <- nodes, m <- nodes | q != node && m.child in q.kids.contents ensures m.child !in node.kids.contents {
      assert m.child in old(q.kids.contents);
      LastOrOrphan(nodes, m);
    }
    assert forall q <- nodes, l | q != node && l in q.kids.contents :: l in old(q.kids.contents);
    assert forall q <- nodes, l | l in q.kids.contents :: l in ChildLinks(nodes);
  }

  twostate lemma StaysList(nodes: set<Node>, new indexed: set<Node>, new node: Node)
    requires old(allocated(indexed)) && old(allocated(node)) && Adopted(nodes, indexed, node)
    requires old(Tree(nodes)) && old(AdoptsWell(indexed, nodes, node))
    ensures node.kids.Valid()
  {
    WhoIsAdopted(nodes, indexed, node);
    var was := old(Now(nodes, node));
    if m :| m in indexed && Names(m, node) && was.Last(m) {
      assert old(node.kids.tail) == m.child;
      var f :| f in indexed && Names(f, node) && old(Orphan(nodes, f));
      assert f.child in node.kids.contents;
    }
  }

  /** Adopting leaves a proper tree exactly if it found one and nothing was in the way. */
  twostate lemma AdoptingKeepsTree(nodes: set<Node>, new indexed: set<Node>, new node: Node)
    requires old(allocated(indexed)) && old(allocated(node)) && Adopted(nodes, indexed, node)
    ensures Tree(nodes) <==> old(Tree(nodes)) && old(AdoptsWell(indexed, nodes, node))
  {
    hide Adopted, AdoptsWell, Tree;
    if Tree(nodes) {
      WasTree(nodes, indexed, node);
      AdoptedWell(nodes, indexed, node);
    } else if old(Tree(nodes)) && old(AdoptsWell(indexed, nodes, node)) {
      StaysTree(nodes, indexed, node);
    }
  }

  /** Where nothing was in the way, exactly those who name the node and were nobody's children have joined its own. */
  twostate lemma OrphansAreAdopted(nodes: set<Node>, new indexed: set<Node>, new node: Node)
    requires old(allocated(indexed)) && old(allocated(node)) && Adopted(nodes, indexed, node)
    requires old(Tree(nodes)) && old(AdoptsWell(indexed, nodes, node))
    ensures forall m <- nodes ::
              m.child in node.kids.contents
              <==> m.child in old(node.kids.contents) || (m in indexed && Names(m, node) && old(Orphan(nodes, m)))
  {
    WhoIsAdopted(nodes, indexed, node);
    hide Adopted, Tree;
    forall m <- nodes
      ensures m.child in node.kids.contents
              <==> m.child in old(node.kids.contents) || (m in indexed && Names(m, node) && old(Orphan(nodes, m)))
    {
      LastOrOrphan(nodes, m);
      MaybeChild(nodes, node, m);
    }
  }

  twostate lemma MaybeChild(nodes: set<Node>, new node: Node, new m: Node)
    requires old(allocated(node)) && old(allocated(m)) && node in nodes && m in nodes && old(Tree(nodes))
    ensures old(node.kids.tail) == m.child ==> m.child in old(node.kids.contents)
  {
    assert old(node.kids.Valid());
  }

  /** All who name the node are its children still, from the last time. */
  ghost predicate AdoptsAgain(indexed: set<Node>, node: Node)
    reads node.kids
  {
    && (exists m <- indexed :: Names(m, node) && node.kids.tail == m.child)
    && (forall m <- indexed | Names(m, node) :: m.child in node.kids.contents)
  }

  /** Then its last child becomes its own successor: the list is a cycle. */
  twostate lemma AdoptedAgain(nodes: set<Node>, new indexed: set<Node>, new node: Node)
    requires old(allocated(indexed)) && old(allocated(node)) && Adopted(nodes, indexed, node)
    requires old(AdoptsAgain(indexed, node))
    ensures node.kids.contents == old(node.kids.contents) && node.kids.tail == old(node.kids.tail)
    ensures node.kids.tail != null && node.kids.tail.next == node.kids.tail
  {
    WhoIsAdopted(nodes, indexed, node);
    var was := old(Now(nodes, node));
    var m :| m in indexed && Names(m, node) && old(node.kids.tail) == m.child;
    assert was.Last(m);
    NoLonger(nodes, node, was.kids);
    node.kids.ValidChain();
  }

  lemma NoLonger(nodes: set<Node>, node: Node, kids: seq<Link<Node>>)
    requires node in nodes && KidsAreNodes(nodes) && node.kids.Chain() && kids <= node.kids.contents
    requires forall m <- nodes | m.child in node.kids.contents :: m.child in kids
    ensures node.kids.contents == kids
  {
    var all := node.kids.contents;
    if |kids| < |all| {
      NotBefore(all, |kids|);
      assert false;
    }
  }

  lemma NotBefore<T>(s: seq<T>, k: nat)
    requires Distinct(s) && k < |s|
    ensures s[k] in s && s[k] !in s[..k]
  {
  }
}
