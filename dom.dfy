/** The part of the DOM node model (domhandler) and of the detach primitive (domutils)
    that the splicer in parse.ts relies on: nodes with four link fields, child lists that
    are shared by reference, and the doubly-linked sibling invariant. */
module Dom {

  /** A JavaScript array of child nodes. It is an object: two containers may hold the
      same array, and `a !== b` compares arrays by identity. */
  class ChildList {
    var items: seq<Node>

    constructor (items: seq<Node>)
      ensures this.items == items
    {
      this.items := items;
    }
  }

  /** A tree node reduced to its Document tag and its link fields. A node that cannot
      hold children simply keeps an empty list. */
  class Node {
    const isDocument: bool
    var parent: Node?
    var prev: Node?
    var next: Node?
    var children: ChildList

    /** `new Document([])`: an empty, unattached root. */
    constructor Document()
      ensures isDocument && parent == null && prev == null && next == null
      ensures fresh(children) && children.items == []
    {
      isDocument := true;
      parent, prev, next := null, null, null;
      children := new ChildList([]);
    }
  }

  /** The nodes of a nullable reference, for frames. */
  function Opt(n: Node?): set<Node>
  {
    if n == null then {} else {n}
  }

  ghost function Elems(s: seq<Node>): set<Node>
  {
    set n | n in s
  }

  predicate Distinct(s: seq<Node>)
  {
    forall i, j :: 0 <= i < j < |s| ==> s[i] != s[j]
  }

  /** JavaScript's `arr[k] || null`: an index outside the array reads `undefined`,
      which `|| null` turns into null (nodes themselves are always truthy). */
  function Lookup(s: seq<Node>, k: int): Node?
  {
    if 0 <= k < |s| then s[k] else null
  }

  /** The link state the splicer gives to the i-th node of `s` under `parent`: the parent
      back-reference, and the neighbours in `s` as siblings (null at both ends), or no
      siblings at all when there is no parent (fragment mode). */
  ghost predicate Placed(s: seq<Node>, i: nat, parent: Node?)
    requires i < |s|
    reads {s[i]}`parent, {s[i]}`prev, {s[i]}`next
  {
    && s[i].parent == parent
    && s[i].prev == (if parent == null then null else Lookup(s, i - 1))
    && s[i].next == (if parent == null then null else Lookup(s, i + 1))
  }

  /** The doubly-linked sibling invariant of container `c`: its children are distinct,
      each points back to `c`, and prev/next follow the order of the child list. */
  ghost predicate Linked(c: Node)
    reads c`children, c.children`items
    reads Elems(c.children.items)`parent, Elems(c.children.items)`prev, Elems(c.children.items)`next
  {
    var s := c.children.items;
    Distinct(s) && forall i :: 0 <= i < |s| ==> Placed(s, i, c)
  }

  /** `s` with every node of `gone` taken out, order kept. */
  function Without(s: seq<Node>, gone: set<Node>): (r: seq<Node>)
    ensures Elems(r) == Elems(s) - gone
    ensures Distinct(s) ==> Distinct(r)
    ensures |r| <= |s|
  {
    if s == [] then []
    else
      assert Elems(s) == {s[0]} + Elems(s[1..]);
      assert Distinct(s) ==> s[0] !in s[1..];
      if s[0] in gone then Without(s[1..], gone)
      else
        var r := [s[0]] + Without(s[1..], gone);
        assert Elems(r) == {s[0]} + Elems(Without(s[1..], gone));
        r
  }

  /** In a list without duplicates, taking out one member is the JavaScript
      `splice(lastIndexOf(x), 1)` at its only index. */
  lemma {:induction false} WithoutOne(s: seq<Node>, k: nat)
    requires Distinct(s) && k < |s|
    ensures Without(s, {s[k]}) == s[..k] + s[k + 1..]
  {
    if k > 0 {
      assert s[1..][k - 1] == s[k];
      WithoutOne(s[1..], k - 1);
      assert s[1..][..k - 1] == s[1..k];
      assert s[1..][k..] == s[k + 1..];
      assert [s[0]] + s[1..k] == s[..k];
    } else {
      assert s[0] !in s[1..];
      WithoutAbsent(s[1..], {s[0]});
    }
  }

  /** Taking out nodes that are not there changes nothing. */
  lemma {:induction false} WithoutAbsent(s: seq<Node>, gone: set<Node>)
    requires forall n :: n in s ==> n !in gone
    ensures Without(s, gone) == s
  {
    if s != [] {
      WithoutAbsent(s[1..], gone);
    }
  }

  /** Taking out one set of nodes and then another is taking out both at once. */
  lemma {:induction false} WithoutTwice(s: seq<Node>, a: set<Node>, b: set<Node>)
    ensures Without(Without(s, a), b) == Without(s, a + b)
  {
    if s != [] {
      WithoutTwice(s[1..], a, b);
    }
  }

  /** The sibling invariant of `c` survives any change that leaves `c`'s array and the
      link fields of its members alone. */
  twostate lemma LinkedKept(c: Node)
    requires old(Linked(c))
    requires c.children == old(c.children) && c.children.items == old(c.children.items)
    requires forall m :: m in old(c.children.items) ==>
               m.parent == old(m.parent) && m.prev == old(m.prev) && m.next == old(m.next)
    ensures Linked(c)
  {
    var s := c.children.items;
    forall i | 0 <= i < |s|
      ensures Placed(s, i, c)
    {
      assert old(Placed(s, i, c));
    }
  }

  /** `LinkedKept` for a whole set of containers at once. */
  twostate lemma AllLinkedKept(cs: set<Node>)
    requires forall c :: c in cs ==> old(Linked(c))
    requires forall c :: c in cs ==> c.children == old(c.children) && c.children.items == old(c.children.items)
    requires forall c, m :: c in cs && m in old(c.children.items) ==>
               m.parent == old(m.parent) && m.prev == old(m.prev) && m.next == old(m.next)
    ensures forall c :: c in cs ==> Linked(c)
  {
    forall c | c in cs
      ensures Linked(c)
    {
      LinkedKept(c);
    }
  }

  /** A member of a linked child list points back to the list's owner. */
  lemma MemberParent(c: Node, m: Node)
    requires Linked(c) && m in c.children.items
    ensures m.parent == c
  {
    var s := c.children.items;
    var k :| 0 <= k < |s| && s[k] == m;
    assert Placed(s, k, c);
  }

  /** Linked child lists of two different containers share no node. */
  lemma LinkedApart(c: Node, d: Node, m: Node)
    requires Linked(c) && Linked(d) && c != d && m in c.children.items
    ensures m !in d.children.items
  {
    MemberParent(c, m);
    if m in d.children.items {
      MemberParent(d, m);
    }
  }

  /** The siblings of a member of a linked child list are members of the same list. */
  lemma NeighboursAreMembers(c: Node, m: Node)
    requires Linked(c) && m in c.children.items
    ensures m.prev != null ==> m.prev in c.children.items && m.prev.parent == c
    ensures m.next != null ==> m.next in c.children.items && m.next.parent == c
  {
    var s := c.children.items;
    var k :| 0 <= k < |s| && s[k] == m;
    assert Placed(s, k, c);
    if m.prev != null {
      assert Placed(s, k - 1, c);
    }
    if m.next != null {
      assert Placed(s, k + 1, c);
    }
  }

  /** Adjacent children point at each other (both directions of the sibling links). */
  lemma LinkedAdjacent(c: Node, i: nat)
    requires Linked(c) && 0 < i < |c.children.items|
    ensures c.children.items[i - 1].next == c.children.items[i]
    ensures c.children.items[i].prev == c.children.items[i - 1]
  {
    assert Placed(c.children.items, i - 1, c);
    assert Placed(c.children.items, i, c);
  }

  /** The nodes met by following `next` from `n`, at most `fuel` of them, while they
      stay within `scope`. */
  ghost function Forward(n: Node?, fuel: nat, scope: set<Node>): seq<Node>
    reads scope`next
    decreases fuel
  {
    if n == null || fuel == 0 || n !in scope then [] else [n] + Forward(n.next, fuel - 1, scope)
  }

  /** The nodes met by following `prev` from `n`, in the order met. */
  ghost function Backward(n: Node?, fuel: nat, scope: set<Node>): seq<Node>
    reads scope`prev
    decreases fuel
  {
    if n == null || fuel == 0 || n !in scope then [] else [n] + Backward(n.prev, fuel - 1, scope)
  }

  /** Reading the `next` links from the j-th child on gives the rest of the child list. */
  lemma {:induction false} ForwardFrom(c: Node, j: nat, fuel: nat)
    requires Linked(c) && j <= |c.children.items| && fuel >= |c.children.items| - j
    ensures Forward(Lookup(c.children.items, j), fuel, Elems(c.children.items)) == c.children.items[j..]
    decreases |c.children.items| - j
  {
    var s := c.children.items;
    if j < |s| {
      assert Placed(s, j, c);
      ForwardFrom(c, j + 1, fuel - 1);
      assert s[j..] == [s[j]] + s[j + 1..];
    }
  }

  /** Reading the `prev` links back from the j-th child gives s[j], s[j-1], ..., s[0]. */
  lemma {:induction false} BackwardFrom(c: Node, j: int, fuel: nat)
    requires Linked(c) && -1 <= j < |c.children.items| && fuel >= j + 1
    ensures Backward(Lookup(c.children.items, j), fuel, Elems(c.children.items)) == Reversed(c.children.items[..j + 1])
    decreases j + 1
  {
    var s := c.children.items;
    if j >= 0 {
      assert Placed(s, j, c);
      BackwardFrom(c, j - 1, fuel - 1);
      assert s[..j + 1][..j] == s[..j];
    }
  }

  /** `s` read from its last element to its first. */
  function Reversed(s: seq<Node>): (r: seq<Node>)
    ensures |r| == |s|
    ensures forall k :: 0 <= k < |s| ==> r[k] == s[|s| - 1 - k]
  {
    if s == [] then [] else [s[|s| - 1]] + Reversed(s[..|s| - 1])
  }

  /** The whole sibling chain: forwards from the first child, and backwards from the last,
      the links enumerate exactly the child list. */
  lemma SiblingChains(c: Node)
    requires Linked(c)
    ensures Forward(Lookup(c.children.items, 0), |c.children.items|, Elems(c.children.items)) == c.children.items
    ensures Backward(Lookup(c.children.items, |c.children.items| - 1), |c.children.items|, Elems(c.children.items))
            == Reversed(c.children.items)
  {
    var s := c.children.items;
    ForwardFrom(c, 0, |s|);
    BackwardFrom(c, |s| - 1, |s|);
    assert s[..|s|] == s;
  }

  /** A one-element list: the node points at the parent and has no siblings, whether
      or not there is a parent. */
  lemma SingleNodeLinks(n: Node, parent: Node?)
    ensures Placed([n], 0, parent) <==> n.parent == parent && n.prev == null && n.next == null
  {
    assert Lookup([n], -1) == null && Lookup([n], 1) == null;
  }

  /** With a node listed twice the sibling invariant cannot hold under a parent: equal
      nodes at positions i < j have equal `prev` fields, so the nodes before them are equal
      too, and so on down to position 0, whose `prev` is null while the other's is not. */
  lemma {:induction false} DuplicateBreaksLinks(s: seq<Node>, p: Node)
    requires forall i :: 0 <= i < |s| ==> Placed(s, i, p)
    ensures Distinct(s)
  {
    forall i, j | 0 <= i < j < |s|
      ensures s[i] != s[j]
    {
      RepeatBreaksLinks(s, p, i, j);
    }
  }

  lemma {:induction false} RepeatBreaksLinks(s: seq<Node>, p: Node, i: nat, j: nat)
    requires forall i :: 0 <= i < |s| ==> Placed(s, i, p)
    requires i < j < |s|
    ensures s[i] != s[j]
    decreases i
  {
    assert Placed(s, i, p) && Placed(s, j, p);
    if i > 0 {
      RepeatBreaksLinks(s, p, i - 1, j - 1);
    }
  }

  /** domutils' `removeElement`, by the contract the splicer relies on: the node's old
      neighbours are linked to each other and the node leaves its parent's child list.
      The node's own link fields are left for the caller to overwrite. */
  method RemoveElement(elem: Node)
    requires elem.parent != null && elem in elem.parent.children.items && Linked(elem.parent)
    modifies elem.parent.children`items, Opt(elem.prev)`next, Opt(elem.next)`prev
    ensures Linked(elem.parent)
    ensures elem.parent.children.items == Without(old(elem.parent.children.items), {elem})
  {
    var owner := elem.parent;
    ghost var s := owner.children.items;
    ghost var k :| 0 <= k < |s| && s[k] == elem;
    assert Placed(s, k, owner);
    if elem.prev != null {
      elem.prev.next := elem.next;
    }
    if elem.next != null {
      elem.next.prev := elem.prev;
    }
    var childs := owner.children;
    childs.items := Without(childs.items, {elem});
    WithoutOne(s, k);
    ghost var t := childs.items;
    assert t == s[..k] + s[k + 1..];
    forall i | 0 <= i < |t|
      ensures Placed(t, i, owner)
    {
      if i < k {
        assert t[i] == s[i];
        assert old(Placed(s, i, owner));
      } else {
        assert t[i] == s[i + 1];
        assert old(Placed(s, i + 1, owner));
      }
    }
  }
}
