# cheerio `src/parse.ts` in Dafny

The project models the two functions in cheerio's `src/parse.ts`, and proves the
doubly-linked sibling structure they maintain:

- `update(newChilds, parent)` is the tree splicer. It takes a node or an array of nodes,
  normalises them to an array `arr`, and installs `arr` as `parent.children`. It then walks
  `arr`:
  - a node whose parent holds a different array is first detached with domutils'
    `removeElement`;
  - each node then gets its neighbours in `arr` as `prev`/`next` (null at the ends) and
    `parent` as its parent.

  With no parent ("fragment mode"), `prev`, `next` and `parent` are all cleared.
- `getParse(parser)` returns `parse(content, options, isDocument)`, which has three cases:
  - a string goes to the injected parser;
  - a lone Document is returned as it is;
  - anything else (a node or an array of nodes) is spliced under a new empty Document.

Files:

- `dom.dfy` (module `Dom`) holds the part of the DOM that the splicer touches:
  - `Node` and `ChildList` classes;
  - the predicates `Placed` and `Linked` for the link state;
  - list removal (`Without`);
  - lemmas about walking sibling chains;
  - the contract of domutils' `removeElement`.
- `parse.dfy` (module `Parse`) holds `update` and `parse`:
  - `Update` is split into its two halves, `Install` then `Relink`;
  - one loop turn of `Relink` is `PlaceChild`, which is in turn `DetachChild` then
    `AttachChild`.

Design points:

- **Arrays are objects.** A JavaScript array is a `ChildList` object. Two containers may
  share one. The guard `node.parent.children !== arr` (line 78) compares objects, exactly as
  the source does.
- **One node becomes a fresh array.** A single node is normalised to a new one-element
  array. In the ghost bookkeeping this is `Owner(c) == null`: an array that no container
  can hold yet.
- **What `update` requires.** The nodes are distinct. Every node the loop will detach is
  a member of its parent's array, and that array is correctly linked (`SpliceReady`).
  Nodes already under `parent`, or whose parent shares `arr`, are not detached, and
  nothing is asked of them.

## Model

| member | source | states |
|---|---|---|
| Parse.Update | src/parse.ts:59-93 | Returns `parent`. With a parent: `parent.children` is `arr` itself (the given array, or a fresh one-element array `[n]` for a single node `n`), unchanged in content and order, and correctly linked. Each node is placed: parent set, `prev`/`next` the neighbours `arr[i - 1] \|\| null` and `arr[i + 1] \|\| null`, so null at the ends, or all three null in fragment mode. `moved[i]` holds exactly when node i had a parent that was not `parent` and whose array was not `arr`. Afterwards no node would be detached by the same call again. Every container a node was detached from stays linked and has lost exactly the spliced nodes, keeping the order of the rest. Only the listed fields change. |
| Parse.Install | src/parse.ts:63-71 | `arr` holds the given nodes in order: it is the given array object, or a fresh one-element array. With a parent, `parent.children` is `arr`. For each node, the guard of line 78 evaluated after installation agrees with the detach condition read on entry. The containers to detach from keep their arrays, stay linked, are not `parent` and do not hold `arr`. |
| Parse.Relink | src/parse.ts:73-90 | After the loop, every node of `arr` is placed under `parent`. `moved[k]` is the line 78 guard for node k. Every source container stays linked and has lost exactly the nodes of `arr`. `arr` itself is unchanged. |
| Parse.PlaceChild | src/parse.ts:74-90 | One loop turn at index i. The placed prefix grows by one, nodes after i keep their parent, and each source container stays linked and has lost exactly `arr[..i+1]`. The result is the guard of line 78. |
| Parse.DetachChild | src/parse.ts:78-80 | `removeElement` on a node whose parent holds another array. The nodes already placed keep their links. Every source container stays linked, and the node leaves exactly its own parent's array. |
| Parse.DetachApart | src/parse.ts:78-79 | Before a detach, the node and its two siblings belong to its parent's array only. None of them is a node placed earlier in the loop. |
| Parse.AttachChild | src/parse.ts:82-89 | Writing `prev`, `next` and `parent` places node i. The earlier nodes and every source container keep their links. |
| Parse.RepeatDetachesNothing | src/parse.ts:78-79 | A node placed under `parent` fails the detach condition of line 78. `Update` ensures every node is placed, and its `moved` ensures says a node is detached exactly when that condition holds, so together with this lemma a second `update` with the same nodes and parent detaches none of them. |
| Parse.SourcesApart | src/parse.ts:78 | The containers detached from are not `parent`, do not hold `arr`, are linked, and hold pairwise distinct arrays. |
| Parse.SourcesFrame | src/parse.ts:79 | Each source container's array, and its members, lie within the frame that `update` declares. |
| Parse.Parse | src/parse.ts:22-49 | A string returns exactly the parser's result for the same content, options and flag. A lone Document returns that same object, and nothing is modified. Any other input returns a fresh Document with no parent or siblings. Its children are the given nodes in order, correctly linked, a given array object is itself the Document's child list, and a single node gets a fresh one-element array. Every container a node was detached from stays linked and has lost exactly the spliced nodes. |
| Parse.SpliceUnderRoot | src/parse.ts:42-48 | A new root is made and `update(doc, root)` is applied. The root is fresh, unattached, and holds the given nodes as its linked children, with a given array object as its very child list, or a fresh one-element array for a single node. Every container a node was detached from stays linked and has lost exactly the spliced nodes, keeping the order of the rest. |
| Parse.ReadyUnderFresh | src/parse.ts:43-46 | A root made after the nodes is nobody's parent, so splicing under it detaches the same nodes, from the same containers and arrays, as splicing with no parent. |
| Dom.Node.Document | src/parse.ts:43 | `new Document([])` is an unattached Document with an empty, fresh child array. |
| Dom.ChildList.constructor | src/parse.ts:64 | The array literal `[newChilds]` holds exactly its elements. |
| Dom.RemoveElement | src/parse.ts:79 | The node's old neighbours are joined. The node leaves its parent's array, the rest keeping their order. The parent stays linked. |
| Dom.Without | src/parse.ts:79 | Removing a set of nodes from a list leaves exactly the other members, keeps distinctness, and never lengthens the list. |
| Dom.WithoutOne | src/parse.ts:79 | In a list without duplicates, removing one node is the `splice` at its only index. |
| Dom.WithoutAbsent | src/parse.ts:78-79 | Removing nodes that are not in the list changes nothing. |
| Dom.WithoutTwice | src/parse.ts:74-90 | Removing nodes in two steps is removing them all at once. This is how the loop's one-by-one detaches add up. |
| Dom.LinkedKept | src/parse.ts:82-89 | A container's sibling invariant survives any change that spares its array and its members' link fields. |
| Dom.AllLinkedKept | src/parse.ts:67-68 | The same, for every container at once. |
| Dom.MemberParent | src/parse.ts:89 | A member of a linked array points back to the array's owner. |
| Dom.LinkedApart | src/parse.ts:78-79 | The linked arrays of two different containers share no node. |
| Dom.NeighboursAreMembers | src/parse.ts:79 | A member's siblings are members of the same array and point to the same parent. |
| Dom.LinkedAdjacent | src/parse.ts:83-84 | In a linked array, adjacent children point at each other in both directions. |
| Dom.ForwardFrom | src/parse.ts:84 | Following `next` from the j-th child visits the rest of the array in order. |
| Dom.BackwardFrom | src/parse.ts:83 | Following `prev` from the j-th child visits the array back to its start. |
| Dom.SiblingChains | src/parse.ts:82-84 | From the first child the `next` links enumerate the whole array. From the last child the `prev` links enumerate it in reverse. |
| Dom.SingleNodeLinks | src/parse.ts:82-89 | A node placed alone has no siblings, with or without a parent. |
| Dom.DuplicateBreaksLinks | src/parse.ts:74-89 | Under a parent, a list whose every node is placed has no node listed twice. Equal nodes at two positions would force equal nodes before them, down to the first position, whose `prev` is null while the other's is not. |

## Left out

- Buffer input (src/parse.ts:27-29) is out: `Content` is the already-decoded text, or nodes. Byte decoding belongs to the Node.js runtime.
- The parser's behaviour is out. It is a function parameter of `Parse`, and `parse` only passes its result through.
- `getParse` as a closure factory is out: the parser it captures becomes the first parameter of `Parse`.
- domhandler's node kinds, attributes and `isDocument` check are out. A node is reduced to its Document tag and its four link fields. A node that cannot hold children keeps an empty array.
- `InternalOptions` is a type parameter, passed through untouched.
- Dom.RemoveElement: domutils' code is not part of this model. The method's body is a minimal stand-in that meets the contract the splicer relies on. It does not clear the removed node's own `prev`, `next` and `parent`, because `update` overwrites them right after the call.
- Parse.Update: requires distinct nodes, and requires linked arrays for the nodes it detaches (`SpliceReady`). The source accepts any input. With a duplicate under a parent the later write wins, and the sibling invariant cannot hold at every position (Dom.DuplicateBreaksLinks); in fragment mode duplicates are harmless, since every field is cleared. With a stale or broken old array, `removeElement` splices the wrong neighbours.
- Parse.Update: cycles are not excluded and not modelled; the source has no check either. The case is a spliced node that is an ancestor of `parent`.
- Parse.Update: the two calls `update(n, p)` and `update([n], p)` are not compared in one lemma. Their link state is the same because every postcondition is stated on `Items(newChilds)`, which is `[n]` in both cases.
- Parse.Parse: the parser's result is a plain node. The model does not check that it is a Document.
