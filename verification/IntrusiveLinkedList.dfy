/** Singly linked lists whose links are members of the elements. */
module IntrusiveLinkedList {
  import opened Wrappers

  /** `container` is the element the link is a member of, which the source finds by subtracting an offset. */
  class Link<T> {
    var next: Link?<T>
    var container: Option<T>

    constructor ()
      ensures next == null && container == None
    {
      next, container := null, None;
    }
  }

  /** All elements but x. */
  function Without<T(==)>(s: seq<T>, x: T): (r: seq<T>)
    ensures x !in s ==> r == s
    ensures |s| - 1 <= |r| <= |s|
  {
    if s == [] then [] else if s[0] == x then s[1..] else [s[0]] + Without(s[1..], x)
  }

  ghost predicate Distinct<T>(s: seq<T>) { forall i, j | 0 <= i < j < |s| :: s[i] != s[j] }

  lemma {:induction false} WithoutAt<T>(s: seq<T>, i: nat)
    requires Distinct(s) && i < |s|
    ensures |Without(s, s[i])| == |s| - 1
    ensures forall k {:trigger Without(s, s[i])[k]} | 0 <= k < |s| - 1 ::
              Without(s, s[i])[k] == s[if k < i then k else k + 1]
  {
    if i > 0 {
      WithoutAt(s[1..], i - 1);
    }
  }

  /** Removing is exact: one element goes, all others stay. */
  lemma {:induction false} WithoutIsExact<T>(s: seq<T>, x: T)
    requires Distinct(s)
    ensures Distinct(Without(s, x))
    ensures forall y :: y in Without(s, x) <==> y in s && y != x
  {
    if x in s {
      var i :| 0 <= i < |s| && s[i] == x;
      WithoutAt(s, i);
      forall y ensures y in Without(s, x) <==> y in s && y != x {
        if y in s && y != x {
          var j :| 0 <= j < |s| && s[j] == y;
          assert Without(s, x)[if j < i then j else j - 1] == y;
        }
      }
    }
  }

  /** Element i of the chain, or null behind its end. */
  function At<T>(s: seq<Link<T>>, i: int): Link?<T> { if 0 <= i < |s| then s[i] else null }

  class List<T> {
    var head: Link?<T>
    var tail: Link?<T>
    ghost var contents: seq<Link<T>>
    /** The element the list is a member of, if it is one. */
    ghost var container: Option<T>

    ghost function Fields(): (Link?<T>, Link?<T>, seq<Link<T>>)
      reads this
    {
      (head, tail, contents)
    }

    /** An acyclic chain from head to tail. */
    ghost predicate Valid()
      reads this, contents
    {
      && Distinct(contents)
      && head == At(contents, 0) && tail == At(contents, |contents| - 1)
      && forall i {:trigger contents[i].next} | 0 <= i < |contents| :: contents[i].next == At(contents, i + 1)
    }

    /** The same, but the tail may be its own successor. */
    ghost predicate Chain()
      reads this, contents
    {
      && Distinct(contents)
      && head == At(contents, 0) && tail == At(contents, |contents| - 1)
      && (forall i {:trigger contents[i].next} | 0 <= i < |contents| - 1 :: contents[i].next == contents[i + 1])
      && (contents != [] ==> tail.next == null || tail.next == tail)
    }

    lemma ValidChain()
      ensures Valid() <==> Chain() && (contents != [] ==> tail.next == null)
    {
    }

    constructor ()
      ensures Valid() && contents == [] && container == None
    {
      head, tail, contents, container := null, null, [], None;
    }

    /** push_back: a link that has a successor is left alone. A link that is in the list without having one is the
        tail, and appending it makes it its own successor, until another link is appended. */
    method PushBack(link: Link<T>)
      requires Chain()
      modifies `head, `tail, `contents, contents`next
      ensures Chain() && (Valid() <==> if old(link.next) != null then old(Valid()) else link != old(tail))
      ensures contents
              == if old(link.next) == null && link !in old(contents) then old(contents) + [link] else old(contents)
      ensures link == old(tail) && old(link.next) == null ==> link.next == link
      ensures forall l <- old(contents) :: l != old(tail) || old(link.next) != null ==> l.next == old(l.next)
      ensures old(link.next) != null ==> Fields() == old(Fields())
    {
      if link.next != null {
        return;
      }
      if tail == null {
        tail := link;
        head := link;
        contents := [link];
      } else {
        assert link in contents ==> link == tail;
        if link !in contents {
          contents := contents + [link];
        }
        tail.next := link;
        tail := link;
      }
    }

    /** The assignments of remove, once the link has been found: it is contents[i]. */
    method Detach(prev: Link?<T>, link: Link<T>, ghost i: nat)
      requires Valid() && i < |contents| && link == contents[i] && prev == At(contents, i - 1)
      modifies `head, `tail, contents`next
      ensures head == if i == 0 then At(contents, 1) else contents[0]
      ensures tail == if i == |contents| - 1 then At(contents, i - 1) else contents[|contents| - 1]
      ensures forall k {:trigger contents[k].next} | 0 <= k < |contents| ::
                contents[k].next
                == if k == i then null else if k == i - 1 then At(contents, i + 1) else At(contents, k + 1)
    {
      if prev == null {
        head := link.next;
        if tail == link {
          tail := head;
        }
      } else {
        prev.next := link.next;
        if tail == link {
          tail := prev;
        }
      }
      link.next := null;
    }

    method Unlink(prev: Link?<T>, link: Link<T>, ghost i: nat)
      requires Valid() && i < |contents| && link == contents[i] && prev == At(contents, i - 1)
      modifies `head, `tail, `contents, contents`next
      ensures Valid() && contents == Without(old(contents), link) && link.next == null
    {
      WithoutAt(contents, i);
      WithoutIsExact(contents, link);
      Detach(prev, link, i);
      hide Distinct, Without;
      contents := Without(contents, link);
    }

    method Remove(link: Link<T>) returns (ok: bool)
      requires Valid()
      modifies `head, `tail, `contents, contents`next
      ensures Valid() && ok == (link in old(contents)) && contents == Without(old(contents), link)
      ensures ok ==> link.next == null
    {
      var prev: Link?<T> := null;
      var test := head;
      ghost var i := 0;
      while test != null
        invariant 0 <= i <= |contents|
        invariant test == At(contents, i)
        invariant prev == At(contents, i - 1)
        invariant link !in contents[..i]
        invariant unchanged(this) && forall l <- contents :: unchanged(l)
        decreases |contents| - i
      {
        if test == link {
          Unlink(prev, link, i);
          return true;
        }
        prev := test;
        test := test.next;
        i := i + 1;
      }
      assert contents[..i] == contents;
      return false;
    }
  }
}
