/** One pass over a sequence of lists, element by element. */
module FlatteningIterator {
  import opened IntrusiveLinkedList

  /** The elements of the lists from the i-th on, in order. */
  ghost function Flat<T>(lists: seq<List<T>>, i: nat): seq<Link<T>>
    requires i <= |lists|
    reads lists
    decreases |lists| - i
  {
    if i == |lists| then [] else lists[i].contents + Flat(lists, i + 1)
  }

  ghost function LinksOf<T>(lists: seq<List<T>>): set<Link<T>>
    reads lists
  {
    set i, j | 0 <= i < |lists| && 0 <= j < |lists[i].contents| :: lists[i].contents[j]
  }

  ghost predicate AllValid<T>(lists: seq<List<T>>)
    reads lists, LinksOf(lists)
  {
    forall i | 0 <= i < |lists| :: lists[i].Valid()
  }

  lemma ChainOf<T>(lists: seq<List<T>>, i: nat, k: nat)
    requires AllValid(lists) && i < |lists|
    ensures lists[i].head == At(lists[i].contents, 0)
    ensures k < |lists[i].contents| ==> lists[i].contents[k].next == At(lists[i].contents, k + 1)
  {
  }

  class FlatteningIterator<T> {
    const lists: seq<List<T>>
    /** outer_it_ and inner_it_; outer_end_ is |lists|. */
    var outer: nat
    var inner: Link?<T>
    /** Where `inner` is in its list. */
    ghost var k: nat

    /** Inside a list, possibly at its end. */
    ghost predicate Within()
      reads this, lists, LinksOf(lists)
    {
      && outer <= |lists|
      && AllValid(lists)
      && (outer < |lists| ==> k <= |lists[outer].contents| && inner == At(lists[outer].contents, k))
    }

    /** On an element, or at the very end. */
    ghost predicate Valid()
      reads this, lists, LinksOf(lists)
    {
      Within() && (outer < |lists| ==> k < |lists[outer].contents|)
    }

    /** What has not been visited yet. */
    ghost function Rest(): seq<Link<T>>
      requires Within()
      reads this, lists, LinksOf(lists)
    {
      if outer == |lists| then [] else lists[outer].contents[k..] + Flat(lists, outer + 1)
    }

    constructor (lists: seq<List<T>>)
      requires AllValid(lists)
      ensures Valid() && this.lists == lists && Rest() == Flat(lists, 0)
    {
      this.lists, outer, k := lists, 0, 0;
      inner := null;
      new;
      if 0 < |lists| {
        inner := lists[0].head;
        assert Rest() == Flat(lists, 0);
        AdvancePastEmpty();
      }
    }

    method AdvancePastEmpty()
      requires Within()
      modifies `outer, `inner, `k
      ensures Valid() && Rest() == old(Rest())
    {
      hide List.Valid, Distinct;
      while outer < |lists| && inner == null
        invariant Within() && Rest() == old(Rest())
        decreases |lists| - outer
      {
        assert lists[outer].contents[k..] == [];
        outer := outer + 1;
        if outer < |lists| {
          ChainOf(lists, outer, 0);
          inner := lists[outer].head;
          k := 0;
        }
      }
    }

    predicate AtEnd()
      reads this
    {
      outer == |lists|
    }

    /** The iteration ends when, and only when, everything has been visited. */
    lemma EndsWhenAllVisited()
      requires Valid()
      ensures AtEnd() <==> Rest() == []
    {
    }

    /** operator* */
    function Current(): (link: Link<T>)
      requires Valid() && !AtEnd()
      reads this, lists, LinksOf(lists)
      ensures Rest() != [] && link == Rest()[0]
    {
      inner
    }

    /** operator++ */
    method Advance()
      requires Valid() && !AtEnd()
      modifies `outer, `inner, `k
      ensures Valid() && Rest() == old(Rest()[1..])
    {
      hide List.Valid, Distinct;
      ChainOf(lists, outer, k);
      assert Rest()[1..] == lists[outer].contents[k + 1..] + Flat(lists, outer + 1);
      inner := inner.next;
      k := k + 1;
      if inner == null {
        AdvancePastEmpty();
      }
    }
  }
}
