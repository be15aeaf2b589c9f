/** src/parse.ts: the splicer `update`, which installs a list of nodes as the children of
    a parent and rewrites their link fields, and the dispatcher `parse` built by
    `getParse`, which turns text, a node, a node list or a document into a document. */
module Parse {
  import opened Dom

  /** The `newChilds` argument of `update`: one node, or an array of nodes. */
  datatype Children = One(node: Node) | Many(list: ChildList)

  /** The array a `Many` argument already is. */
  function ListOf(c: Children): set<ChildList>
  {
    if c.Many? then {c.list} else {}
  }

  /** The nodes of the normalised array `arr`, in order. */
  function Items(c: Children): seq<Node>
    reads ListOf(c)`items
  {
    match c
    case One(n) => [n]
    case Many(l) => l.items
  }

  /** The array object `arr` is when it existed before the call; null stands for the fresh
      one-element array made for a single node, which no container can hold yet. */
  function Owner(c: Children): ChildList?
  {
    if c.Many? then c.list else null
  }

  /** The detach guard, read in the state before the call: `n` has a parent, and that
      parent's array is not `owner`. The parent of the splice holds `arr` by the time `n`
      is reached, so its own former children are never detached. */
  ghost predicate Moves(n: Node, owner: ChildList?, parent: Node?)
    reads n`parent, Opt(n.parent)`children
  {
    n.parent != null && n.parent != parent && n.parent.children != owner
  }

  ghost function Parents(s: seq<Node>): set<Node>
    reads Elems(s)`parent
  {
    set n | n in s && n.parent != null :: n.parent
  }

  /** The containers the splice detaches nodes from. */
  ghost function Sources(s: seq<Node>, owner: ChildList?, parent: Node?): set<Node>
    reads Elems(s)`parent, Parents(s)`children
  {
    set n | n in s && Moves(n, owner, parent) :: n.parent
  }

  ghost function SourceLists(s: seq<Node>, owner: ChildList?, parent: Node?): set<ChildList>
    reads Elems(s)`parent, Parents(s)`children
  {
    set n | n in s && Moves(n, owner, parent) :: n.parent.children
  }

  ghost function SourceItems(s: seq<Node>, owner: ChildList?, parent: Node?): set<Node>
    reads Elems(s)`parent, Parents(s)`children, SourceLists(s, owner, parent)`items
  {
    set n, m | n in s && Moves(n, owner, parent) && m in n.parent.children.items :: m
  }

  /** What `update` needs of the nodes it is given: no node twice, and every node it will
      detach is in its parent's child list and that list is correctly linked, so that
      detaching splices the node's real siblings. */
  ghost predicate SpliceReady(s: seq<Node>, owner: ChildList?, parent: Node?)
    reads Elems(s)`parent, Parents(s)`children, SourceLists(s, owner, parent)`items
    reads SourceItems(s, owner, parent)`parent, SourceItems(s, owner, parent)`prev, SourceItems(s, owner, parent)`next
  {
    && Distinct(s)
    && forall i :: 0 <= i < |s| && Moves(s[i], owner, parent) ==>
         s[i] in s[i].parent.children.items && Linked(s[i].parent)
  }

  /** `update(newChilds, parent)`. `moved[i]` records whether the loop called
      `removeElement` on the i-th node. */
  method Update(newChilds: Children, parent: Node?) returns (r: Node?, ghost moved: seq<bool>)
    requires SpliceReady(Items(newChilds), Owner(newChilds), parent)
    modifies Opt(parent)`children
    modifies Elems(Items(newChilds))`parent, Elems(Items(newChilds))`prev, Elems(Items(newChilds))`next
    modifies SourceLists(Items(newChilds), Owner(newChilds), parent)`items
    modifies SourceItems(Items(newChilds), Owner(newChilds), parent)`prev
    modifies SourceItems(Items(newChilds), Owner(newChilds), parent)`next
    ensures r == parent
    ensures Items(newChilds) == old(Items(newChilds))
    ensures parent != null ==> parent.children.items == Items(newChilds) && Linked(parent)
    ensures parent != null && newChilds.Many? ==> parent.children == newChilds.list
    ensures parent != null && newChilds.One? ==> fresh(parent.children)
    ensures forall i :: 0 <= i < |Items(newChilds)| ==> Placed(Items(newChilds), i, parent)
    ensures |moved| == |Items(newChilds)|
    ensures forall i :: 0 <= i < |moved| ==> (moved[i] <==> old(Moves(Items(newChilds)[i], Owner(newChilds), parent)))
    ensures forall i :: 0 <= i < |Items(newChilds)| ==> !Moves(Items(newChilds)[i], Owner(newChilds), parent)
    ensures forall R :: R in old(Sources(Items(newChilds), Owner(newChilds), parent)) ==>
              Linked(R) && R.children.items == Without(old(R.children.items), Elems(Items(newChilds)))
  {
    ghost var s := Items(newChilds);
    ghost var owner := Owner(newChilds);
    ghost var sources := Sources(s, owner, parent);
    ghost var lists := SourceLists(s, owner, parent);
    ghost var sourceItems := SourceItems(s, owner, parent);
    ghost var oldItems := map R | R in sources :: R.children.items;
    SourcesFrame(s, owner, parent);
    var arr := Install(newChilds, parent);
    moved := Relink(arr, parent, sources, oldItems, lists, sourceItems);
    assert Items(newChilds) == arr.items == s;
    RepeatDetachesNothing(s, owner, parent);
    r := parent;
  }

  /** The first half of `update`: normalise `newChilds` to an array and make it the
      parent's child list. Every container the loop will detach from is still correctly
      linked and does not hold `arr`, and the loop's guard on each node agrees with the
      guard read before the call. */
  method Install(newChilds: Children, parent: Node?) returns (arr: ChildList)
    requires SpliceReady(Items(newChilds), Owner(newChilds), parent)
    modifies Opt(parent)`children
    ensures arr.items == old(Items(newChilds))
    ensures newChilds.Many? ==> arr == newChilds.list
    ensures newChilds.One? ==> fresh(arr)
    ensures parent != null ==> parent.children == arr
    ensures forall k :: 0 <= k < |arr.items| ==>
              (Guard(arr.items[k], arr) <==> old(Moves(Items(newChilds)[k], Owner(newChilds), parent)))
    ensures forall k :: 0 <= k < |arr.items| && Guard(arr.items[k], arr) ==>
              && arr.items[k].parent in old(Sources(Items(newChilds), Owner(newChilds), parent))
              && arr.items[k] in old(Items(newChilds)[k].parent.children.items)
    ensures forall R :: R in old(Sources(Items(newChilds), Owner(newChilds), parent)) ==>
              Linked(R) && R.children == old(R.children) && R != parent && R.children != arr
    ensures forall R1, R2 :: R1 in old(Sources(Items(newChilds), Owner(newChilds), parent)) &&
                             R2 in old(Sources(Items(newChilds), Owner(newChilds), parent)) && R1 != R2 ==>
              R1.children != R2.children
  {
    ghost var s := Items(newChilds);
    ghost var owner := Owner(newChilds);
    ghost var sources := Sources(s, owner, parent);
    SourcesApart(s, owner, parent);

    // A single node becomes a new one-element array; an array is used as it is.
    if newChilds.Many? {
      arr := newChilds.list;
    } else {
      arr := new ChildList([newChilds.node]);
    }

    // The array object itself becomes the parent's child list.
    if parent != null {
      parent.children := arr;
    }

    AllLinkedKept(sources);
    forall k | 0 <= k < |s|
      ensures Guard(s[k], arr) <==> old(Moves(s[k], owner, parent))
      ensures Guard(s[k], arr) ==> s[k].parent in sources && s[k] in old(s[k].parent.children.items)
    {
    }
  }

  /** Once every node points back to `parent`, splicing the same nodes under `parent`
      again detaches none of them. */
  lemma RepeatDetachesNothing(s: seq<Node>, owner: ChildList?, parent: Node?)
    requires forall i :: 0 <= i < |s| ==> Placed(s, i, parent)
    ensures forall i :: 0 <= i < |s| ==> !Moves(s[i], owner, parent)
  {
    forall i | 0 <= i < |s|
      ensures !Moves(s[i], owner, parent)
    {
      assert Placed(s, i, parent);
    }
  }

  /** The detach guard of line 78, read when the loop reaches the node: the node has a
      parent whose array is not `arr`. */
  ghost predicate Guard(n: Node, arr: ChildList)
    reads n`parent, Opt(n.parent)`children
  {
    n.parent != null && n.parent.children != arr
  }

  /** The loop of `update` over the installed array `arr`. `sources` are the containers
      whose nodes it detaches, with their arrays as they were in `base`. */
  method Relink(arr: ChildList, parent: Node?, ghost sources: set<Node>, ghost base: map<Node, seq<Node>>,
                ghost lists: set<ChildList>, ghost siblings: set<Node>)
    returns (ghost moved: seq<bool>)
    requires Distinct(arr.items)
    requires parent != null ==> parent.children == arr
    requires forall R :: R in sources ==>
               && R in base && R != parent && R.children != arr && Linked(R)
               && R.children.items == base[R]
    requires forall R1, R2 :: R1 in sources && R2 in sources && R1 != R2 ==> R1.children != R2.children
    requires forall R :: R in sources ==> R.children in lists && Elems(base[R]) <= siblings
    requires forall k :: 0 <= k < |arr.items| && Guard(arr.items[k], arr) ==>
               arr.items[k].parent in sources && arr.items[k] in base[arr.items[k].parent]
    modifies Elems(arr.items)`parent, Elems(arr.items)`prev, Elems(arr.items)`next
    modifies lists`items, siblings`prev, siblings`next
    ensures arr.items == old(arr.items)
    ensures forall k :: 0 <= k < |arr.items| ==> Placed(arr.items, k, parent)
    ensures |moved| == |arr.items|
    ensures forall k :: 0 <= k < |moved| ==> moved[k] == old(Guard(arr.items[k], arr))
    ensures forall R :: R in sources ==> Linked(R) && R.children.items == Without(base[R], Elems(arr.items))
  {
    ghost var s := arr.items;
    forall R | R in sources
      ensures R.children.items == Without(base[R], Elems(s[..0]))
    {
      assert Elems(s[..0]) == {};
      WithoutAbsent(base[R], {});
    }
    moved := [];
    for i := 0 to |arr.items|
      invariant arr.items == s
      invariant forall k :: 0 <= k < i ==> Placed(s, k, parent)
      invariant forall j :: i <= j < |s| ==> s[j].parent == old(s[j].parent)
      invariant |moved| == i
      invariant forall k :: 0 <= k < i ==> moved[k] == old(Guard(s[k], arr))
      invariant forall R :: R in sources ==> Linked(R)
      invariant forall R :: R in sources ==> R.children.items == Without(base[R], Elems(s[..i]))
    {
      assert Guard(s[i], arr) == old(Guard(s[i], arr));
      ghost var m := PlaceChild(arr, i, parent, sources, base, lists, siblings);
      moved := moved + [m];
    }
    assert s[..|s|] == s;
  }

  /** Distinct containers the splice detaches from hold distinct arrays, none of them
      `arr` itself. */
  lemma SourcesApart(s: seq<Node>, owner: ChildList?, parent: Node?)
    requires SpliceReady(s, owner, parent)
    ensures forall R :: R in Sources(s, owner, parent) ==> R != parent && R.children != owner && Linked(R)
    ensures forall R1, R2 :: R1 in Sources(s, owner, parent) && R2 in Sources(s, owner, parent) && R1 != R2 ==>
              R1.children != R2.children
  {
    forall R1, R2 | R1 in Sources(s, owner, parent) && R2 in Sources(s, owner, parent) && R1.children == R2.children
      ensures R1 == R2
    {
      var n1 :| n1 in s && Moves(n1, owner, parent) && n1.parent == R1;
      var k :| 0 <= k < |s| && s[k] == n1;
      MemberParent(R2, n1);
    }
  }

  /** The frame of `update`, container by container: each source's array and its children
      are among the locations `update` may change. */
  lemma SourcesFrame(s: seq<Node>, owner: ChildList?, parent: Node?)
    ensures forall R :: R in Sources(s, owner, parent) ==>
              && R.children in SourceLists(s, owner, parent)
              && Elems(R.children.items) <= SourceItems(s, owner, parent)
  {
  }

  /** One turn of `update`'s loop, for the node at index `i` of `arr`: detach it from a
      stale child list, give it its siblings in `arr` (or none in fragment mode), and
      point it at the new parent. `sources` are the containers still to lose nodes, with
      the lists they held before the splice in `base`. */
  method PlaceChild(arr: ChildList, i: nat, parent: Node?, ghost sources: set<Node>, ghost base: map<Node, seq<Node>>,
                    ghost lists: set<ChildList>, ghost siblings: set<Node>)
    returns (ghost moved: bool)
    requires i < |arr.items| && Distinct(arr.items)
    requires parent != null ==> parent.children == arr
    requires forall k :: 0 <= k < i ==> Placed(arr.items, k, parent)
    requires forall R :: R in sources ==>
               && R in base && R != parent && R.children != arr && Linked(R)
               && R.children.items == Without(base[R], Elems(arr.items[..i]))
    requires forall R1, R2 :: R1 in sources && R2 in sources && R1 != R2 ==> R1.children != R2.children
    requires forall R :: R in sources ==> R.children in lists && Elems(R.children.items) <= siblings
    requires Guard(arr.items[i], arr) ==> arr.items[i].parent in sources && arr.items[i] in base[arr.items[i].parent]
    modifies {arr.items[i]}`parent, {arr.items[i]}`prev, {arr.items[i]}`next
    modifies lists`items, siblings`prev, siblings`next
    ensures moved == old(Guard(arr.items[i], arr))
    ensures arr.items == old(arr.items)
    ensures forall k :: 0 <= k <= i ==> Placed(arr.items, k, parent)
    ensures forall j :: i < j < |arr.items| ==> arr.items[j].parent == old(arr.items[j].parent)
    ensures forall R :: R in sources ==> Linked(R)
    ensures forall R :: R in sources ==> R.children.items == Without(base[R], Elems(arr.items[..i + 1]))
  {
    var node := arr.items[i];
    ghost var s := arr.items;
    ghost var gone := Elems(s[..i]);
    assert node !in gone;
    assert Elems(s[..i + 1]) == gone + {node} by {
      assert s[..i + 1] == s[..i] + [node];
    }
    moved := node.parent != null && node.parent.children != arr;

    // A node still held by another container's array is first detached from it.
    if node.parent != null && node.parent.children != arr {
      assert node in Elems(node.parent.children.items);
      NeighboursAreMembers(node.parent, node);
      DetachChild(arr, i, parent, sources, base);
    } else {
      forall S | S in sources
        ensures node !in S.children.items
        ensures S.children.items == Without(base[S], gone + {node})
      {
        if node in S.children.items {
          MemberParent(S, node);
        }
        WithoutAbsent(S.children.items, {node});
        WithoutTwice(base[S], gone, {node});
      }
    }
    AttachChild(arr, i, parent, sources);
  }

  /** The detach step of one turn: `removeElement(node)` for a node whose parent's array
      is not `arr`. The node leaves exactly that parent's list; every source stays
      correctly linked, and the nodes already placed keep their links. */
  method DetachChild(arr: ChildList, i: nat, parent: Node?, ghost sources: set<Node>, ghost base: map<Node, seq<Node>>)
    requires i < |arr.items| && Distinct(arr.items)
    requires forall k :: 0 <= k < i ==> Placed(arr.items, k, parent)
    requires forall R :: R in sources ==>
               && R in base && R != parent && R.children != arr && Linked(R)
               && R.children.items == Without(base[R], Elems(arr.items[..i]))
    requires forall R1, R2 :: R1 in sources && R2 in sources && R1 != R2 ==> R1.children != R2.children
    requires arr.items[i].parent != null && arr.items[i].parent in sources
    requires arr.items[i] in base[arr.items[i].parent]
    modifies {arr.items[i].parent.children}`items, Opt(arr.items[i].prev)`next, Opt(arr.items[i].next)`prev
    ensures forall k :: 0 <= k < i ==> Placed(arr.items, k, parent)
    ensures forall S :: S in sources ==>
              && Linked(S) && arr.items[i] !in S.children.items
              && S.children.items == Without(base[S], Elems(arr.items[..i]) + {arr.items[i]})
  {
    var node := arr.items[i];
    ghost var s := arr.items;
    ghost var gone := Elems(s[..i]);
    ghost var R := node.parent;
    DetachApart(s, i, parent, sources, base);
    RemoveElement(node);
    forall S | S in sources && S != R
      ensures Linked(S)
    {
      LinkedKept(S);
    }
    WithoutTwice(base[R], gone, {node});
  }

  /** Before the detach step: the nodes `removeElement` writes (the node and its two
      siblings) belong to the node's own parent only, and none of them is a node already
      placed; every other source already lacks the node. */
  lemma DetachApart(s: seq<Node>, i: nat, parent: Node?, sources: set<Node>, base: map<Node, seq<Node>>)
    requires i < |s| && Distinct(s)
    requires forall k :: 0 <= k < i ==> Placed(s, k, parent)
    requires forall R :: R in sources ==>
               && R in base && R != parent && Linked(R)
               && R.children.items == Without(base[R], Elems(s[..i]))
    requires s[i].parent != null && s[i].parent in sources && s[i] in base[s[i].parent]
    ensures s[i] in s[i].parent.children.items
    ensures s[i].prev != null ==> s[i].prev in s[i].parent.children.items
    ensures s[i].next != null ==> s[i].next in s[i].parent.children.items
    ensures forall k :: 0 <= k < i ==> s[k] != s[i].prev && s[k] != s[i].next
    ensures forall S :: S in sources && S != s[i].parent ==>
              && s[i] !in S.children.items
              && (s[i].prev != null ==> s[i].prev !in S.children.items)
              && (s[i].next != null ==> s[i].next !in S.children.items)
              && S.children.items == Without(base[S], Elems(s[..i]) + {s[i]})
  {
    var node, R := s[i], s[i].parent;
    var gone := Elems(s[..i]);
    assert node !in gone;
    assert node in Elems(R.children.items);
    NeighboursAreMembers(R, node);
    forall S | S in sources && S != R
      ensures node !in S.children.items
      ensures node.prev != null ==> node.prev !in S.children.items
      ensures node.next != null ==> node.next !in S.children.items
      ensures S.children.items == Without(base[S], gone + {node})
    {
      LinkedApart(R, S, node);
      if node.prev != null { LinkedApart(R, S, node.prev); }
      if node.next != null { LinkedApart(R, S, node.next); }
      WithoutAbsent(S.children.items, {node});
      WithoutTwice(base[S], gone, {node});
    }
    forall k | 0 <= k < i
      ensures s[k] != node.prev && s[k] != node.next
    {
      assert Placed(s, k, parent);
    }
  }

  /** The linking step of one turn: the node points at its neighbours in `arr` (none at
      all in fragment mode) and at the new parent. Nothing else changes, so the nodes
      already placed and the sources it has left stay as they were. */
  method AttachChild(arr: ChildList, i: nat, parent: Node?, ghost sources: set<Node>)
    requires i < |arr.items| && Distinct(arr.items)
    requires forall k :: 0 <= k < i ==> Placed(arr.items, k, parent)
    requires forall S :: S in sources ==> Linked(S) && arr.items[i] !in S.children.items
    modifies {arr.items[i]}`parent, {arr.items[i]}`prev, {arr.items[i]}`next
    ensures forall k :: 0 <= k <= i ==> Placed(arr.items, k, parent)
    ensures forall S :: S in sources ==> Linked(S)
  {
    var node := arr.items[i];
    if parent != null {
      node.prev, node.next, node.parent := Lookup(arr.items, i - 1), Lookup(arr.items, i + 1), parent;
    } else {
      node.prev, node.next, node.parent := null, null, parent;
    }
    forall R | R in sources
      ensures Linked(R)
    {
      LinkedKept(R);
    }
  }

  /** The `content` argument of `parse`, after a `Buffer` has been turned into a string:
      text, or a node, an array of nodes, or a Document. */
  datatype Content = Text(text: string) | Nodes(nodes: Children)

  /** Line 37: a lone node (not an array) that is a Document. */
  predicate IsRoot(c: Children)
  {
    c.One? && c.node.isDocument
  }

  function ContentLists(content: Content): set<ChildList>
  {
    if content.Nodes? then ListOf(content.nodes) else {}
  }

  /** The nodes `parse` splices under a new root: none for text or for a Document. */
  function Spliced(content: Content): seq<Node>
    reads ContentLists(content)`items
  {
    if content.Nodes? && !IsRoot(content.nodes) then Items(content.nodes) else []
  }

  function SplicedOwner(content: Content): ChildList?
  {
    if content.Nodes? then Owner(content.nodes) else null
  }

  /** The function `getParse(parser)` returns, applied to `content`. The parser it closes
      over is passed in. */
  method Parse<Options>(parser: (string, Options, bool) -> Node, content: Content, options: Options, isDocument: bool)
    returns (doc: Node)
    requires SpliceReady(Spliced(content), SplicedOwner(content), null)
    modifies Elems(Spliced(content))`parent, Elems(Spliced(content))`prev, Elems(Spliced(content))`next
    modifies SourceLists(Spliced(content), SplicedOwner(content), null)`items
    modifies SourceItems(Spliced(content), SplicedOwner(content), null)`prev
    modifies SourceItems(Spliced(content), SplicedOwner(content), null)`next
    ensures content.Text? ==> doc == parser(content.text, options, isDocument)
    ensures content.Nodes? && IsRoot(content.nodes) ==> doc == content.nodes.node
    ensures content.Nodes? && !IsRoot(content.nodes) ==>
              && fresh(doc) && doc.isDocument
              && doc.parent == null && doc.prev == null && doc.next == null
              && doc.children.items == old(Items(content.nodes))
              && Linked(doc)
              && (content.nodes.Many? ==> doc.children == content.nodes.list)
              && (content.nodes.One? ==> fresh(doc.children))
    ensures forall R :: R in old(Sources(Spliced(content), SplicedOwner(content), null)) ==>
              Linked(R) && R.children.items == Without(old(R.children.items), Elems(old(Spliced(content))))
  {
    if content.Text? {
      return parser(content.text, options, isDocument);
    }
    var nodes := content.nodes;
    if nodes.One? && nodes.node.isDocument {
      return nodes.node;
    }
    assert Spliced(content) == Items(nodes);
    doc := SpliceUnderRoot(nodes);
  }

  /** The last branch of `parse`: a new empty Document, `update(doc, root)`, and the
      root returned. */
  method SpliceUnderRoot(nodes: Children) returns (root: Node)
    requires SpliceReady(Items(nodes), Owner(nodes), null)
    modifies Elems(Items(nodes))`parent, Elems(Items(nodes))`prev, Elems(Items(nodes))`next
    modifies SourceLists(Items(nodes), Owner(nodes), null)`items
    modifies SourceItems(Items(nodes), Owner(nodes), null)`prev
    modifies SourceItems(Items(nodes), Owner(nodes), null)`next
    ensures fresh(root) && root.isDocument
    ensures root.parent == null && root.prev == null && root.next == null
    ensures root.children.items == old(Items(nodes))
    ensures Linked(root)
    ensures nodes.Many? ==> root.children == nodes.list
    ensures nodes.One? ==> fresh(root.children)
    ensures forall R :: R in old(Sources(Items(nodes), Owner(nodes), null)) ==>
              Linked(R) && R.children.items == Without(old(R.children.items), Elems(old(Items(nodes))))
  {
    root := new Node.Document();
    ghost var s := Items(nodes);
    ReadyUnderFresh(s, Owner(nodes), root);
    assert root !in Elems(s) && root !in SourceItems(s, Owner(nodes), null);
    var r: Node?;
    ghost var moved: seq<bool>;
    r, moved := Update(nodes, root);
  }

  /** A node made after the nodes to splice is nobody's parent yet, so splicing under it
      detaches the same nodes, from the same lists, as splicing with no parent. */
  lemma ReadyUnderFresh(s: seq<Node>, owner: ChildList?, root: Node)
    requires forall i :: 0 <= i < |s| ==> s[i].parent != root
    ensures forall n :: n in s ==> (Moves(n, owner, root) <==> Moves(n, owner, null))
    ensures SpliceReady(s, owner, null) ==> SpliceReady(s, owner, root)
    ensures SourceLists(s, owner, root) == SourceLists(s, owner, null)
    ensures SourceItems(s, owner, root) == SourceItems(s, owner, null)
    ensures Sources(s, owner, root) == Sources(s, owner, null)
  {
  }
}

