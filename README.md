# java-trie in Dafny

This project models the character trie of the `com.markety.trie` package:

- `TrieNode` is one node of the trie. It holds a char, an optional value, children by char, a parent pointer and a child-storage mode.
- `TrieMap` is the string-keyed map built on a root node. It keeps a cached `keySet`, and it hands out read-only views rooted at a prefix.

Files:

- `Util.dfy`: `Option` (Java's nullable reference) and `Distinct`.
- `TrieNode.dfy`: the node engine.
  - Nodes live in an arena, a map from handles to node records. Child links and the parent pointer are handles. Handles are handed out in increasing order, so a parent is always older than its child; this makes the parent relation acyclic and is what terminates `getKey` and the pruning walk.
  - The lookups are functions of the arena: `findChild`, `getNode`, `get` and `getKey`.
  - `put`, `remove` and the node constructor are methods of the `Arena` class.
  - The two depth-first iterators are classes over a stack: `MyNodesIterator` and `MyKeysIterator`.
- `TrieMap.dfy`: the `TrieMap` class.
  - Its fields are the shared arena, the root handle, the storage mode, the key set and the read-only flag.
  - Each map operation becomes a method or function of the class.
  - A view's refusal to change anything (a `RuntimeException` in Java) becomes the `ReadOnlyView` result.

Main facts proved:

- `put` returns the previous value and stores the new one. It creates exactly one node per missing char and changes no other key.
- `remove` returns the previous value and clears the key. It changes no other key and prunes exactly as the Java loop does:
  - it detaches only nodes that have neither a value nor children;
  - it stops at a root or at the first node with a value or a child;
  - it never detaches a root.
- Lookups stop at the first missing child.
- Two paths that reach the same node are equal.
- The full key of a node found along `u` is the start node's key followed by `u`.
- The node iterator yields exactly the value-bearing nodes below its start, each once.
- The key iterator yields exactly the relative paths that hold a value, each once.
- For a mutable map, `keySet` is exactly the set of keys holding a value, and every map operation keeps this. A view starts out the same way; its key set can go stale when its parent map changes, but its root stays a node of the shared arena, so its lookups stay defined.
- `getKeysStartingWith(p)` returns exactly the stored keys that start with `p`, each once.

Facts of the code that the model follows:

- The root can hold a value: `put("", v)` stores `v` in the root, and both iterators then yield it (the key iterator as the path `""`).
- The Javadoc of the no-argument `TrieMap()` (TrieMap.java:47) speaks of random selection for each node. Its body builds the root in RANDOM mode but records HASHMAP as the map's mode (TrieMap.java:50-51). So `clear()` on such a map builds the new root in HASHMAP mode, not in the mode of the root it replaces.
- The Javadoc of RANDOM mode (TrieNode.java:28) calls the choice of container random. The constructor (TrieNode.java:56-61) picks it from the parity of the node's own char, for RANDOM and for any byte other than 0 or 1 (`StorageFor`). The choice is deterministic.

## Model

| member | source | states |
|---|---|---|
| TrieNode.Arena.NewNode | src/com/markety/trie/TrieNode.java:46-63 | The new node has the given char, value, parent and mode, and no children. Its container is HashMap for mode 0, TreeMap for mode 1, and otherwise decided by the parity of its char. No other node changes. |
| TrieNode.StorageFor | src/com/markety/trie/TrieNode.java:52-61 | HASHMAP mode gives a HashMap and TREEMAP mode a TreeMap. Any other mode gives a HashMap exactly when the node's char is even. |
| TrieNode.FindChild | src/com/markety/trie/TrieNode.java:92-94 | The result is absent exactly when there is no child under that char. A present child points back at the node, carries that char, and is younger than the node. |
| TrieNode.GetNode | src/com/markety/trie/TrieNode.java:151-162 | A node found from `h` is in the arena and not older than `h`. When the first char has no child, nothing is found. |
| TrieNode.GetNodeEmpty | src/com/markety/trie/TrieNode.java:151-153 | `getNode("")` is the node itself, so `get("")` is the node's own value. |
| TrieNode.GetNodeAppend | src/com/markety/trie/TrieNode.java:151-162 | Looking up `u + v` is looking up `u`, then `v` from the node found; it is absent when the node for `u` is absent. |
| TrieNode.GetNodeMissExtends | src/com/markety/trie/TrieNode.java:155-157 | Once a prefix has no node, no extension of it has a node or a value: the lookup stops at the first missing child. |
| TrieNode.GetNodeOrder | src/com/markety/trie/TrieNode.java:151-162 | A node found below `a` is `a` itself or younger, and strictly younger for a non-empty path. |
| TrieNode.Get | src/com/markety/trie/TrieNode.java:169-176 | A value is returned only when a node exists at the path. |
| TrieNode.GetKey | src/com/markety/trie/TrieNode.java:74-80 | The key is empty exactly for a node without a parent. Otherwise it ends with the node's own char. |
| TrieNode.GetNodeKey | src/com/markety/trie/TrieNode.java:74-80 | The full key of the node reached from `a` along `u` is `a`'s key followed by `u`. |
| TrieNode.GetNodeUnique | src/com/markety/trie/TrieNode.java:151-162 | Two paths from one node that reach the same node are equal, so no two reachable nodes share a key. |
| TrieNode.FullKeys | src/com/markety/trie/TrieNode.java:74-80 | From a parentless root, `w` holds a value exactly when some reachable value-bearing node has full key `w`. |
| TrieNode.EmptyNodeGet | src/com/markety/trie/TrieNode.java:169-176 | A node with no value and no children holds nothing at any path. |
| TrieNode.Arena.Put | src/com/markety/trie/TrieNode.java:103-118 | Returns the previous value at `w` and stores the new one there. Keys other than `w` keep their values. Old nodes keep their char, parent, mode and links. The arena grows by exactly one node per char of `w` that had no node. |
| TrieNode.PutStep | src/com/markety/trie/TrieNode.java:109-116 | One level of `put`: the lookup of `w` below a node is the lookup of the rest below the found or freshly linked child. No value other than the one at `w` changes. |
| TrieNode.LinkedWf | src/com/markety/trie/TrieNode.java:112-115 | Linking a fresh node under a char that had no child keeps every child pointing back at its parent under its own char, and every parent older than its child. |
| TrieNode.AddChild | src/com/markety/trie/TrieNode.java:112-115 | After linking the fresh node, old nodes keep their char, parent, mode and links. No old value changes, and nothing lies below the new node. |
| TrieNode.Arena.Remove | src/com/markety/trie/TrieNode.java:126-144 | On a path without a node, returns None and changes nothing. Otherwise: returns the previous value, the path has no value afterwards, and other keys keep theirs. The arena is pruned as described for `Pruned`. |
| TrieNode.PruneStart | src/com/markety/trie/TrieNode.java:131-133 | Clearing the found node's value (`put("", null)`) takes the value from exactly key `w`. |
| TrieNode.PruneStep | src/com/markety/trie/TrieNode.java:135-141 | Detaching a value-less, child-less node from its parent keeps the well-formedness of the arena, keeps the walk along parent pointers and keeps every lookup from the start node. |
| TrieNode.ShapeStep | src/com/markety/trie/TrieNode.java:139-140 | After the detach, the parent has lost exactly the link under the detached node's char, and nothing else changed. |
| TrieNode.CutGet | src/com/markety/trie/TrieNode.java:139-140 | The detach changes no lookup from the node `remove` was called on. |
| TrieNode.Children | src/com/markety/trie/TrieNode.java:219-220 | Lists each child of the node exactly once, in an unspecified order. |
| TrieNode.DfsInit | src/com/markety/trie/TrieNode.java:201-204 | A stack holding just the start node satisfies the walk invariant. |
| TrieNode.DfsStep | src/com/markety/trie/TrieNode.java:217-226 | Popping a node and pushing its children keeps the invariant: pending nodes are distinct, unvisited and reachable, and every unvisited reachable node lies below a pending one. |
| TrieNode.DfsStepStack | src/com/markety/trie/TrieNode.java:217-220 | After the pop and the pushes, the pending nodes are distinct, reachable and unvisited, and every pending node other than the start has a visited parent. |
| TrieNode.DfsStepCover | src/com/markety/trie/TrieNode.java:217-220 | After the pop and the pushes, every reachable unvisited node still lies below some pending node. |
| TrieNode.DfsDone | src/com/markety/trie/TrieNode.java:212-214 | Once the stack is empty, every node below the start has been popped. |
| TrieNode.NodesIterator.constructor | src/com/markety/trie/TrieNode.java:201-205 | Starts the walk at the node and positions on the first value-bearing node. |
| TrieNode.PopNode | src/com/markety/trie/TrieNode.java:217-220 | Pops the top node, which was not visited before. The rest of the stack is kept, exactly the node's children are pushed, and the walk invariant holds with the node visited. |
| TrieNode.NodesFound | src/com/markety/trie/TrieNode.java:228-231 | Stopping on a popped node with a value, or on an empty stack, leaves the iterator state right: `next` is that node (or absent once every node has been popped), and the yielded nodes plus `next` are the visited value-bearing ones. |
| TrieNode.FindValued | src/com/markety/trie/TrieNode.java:217-231 | The loop of `findNext` on a non-empty stack: visits at least one new node and ends in the iterator state described for `NodesFound`. |
| TrieNode.NodesIterator.FindNext | src/com/markety/trie/TrieNode.java:210-232 | Pops until it reaches a value-bearing node or the stack runs out. Every popped value-bearing node is the new `next` or was yielded before, and `next` is absent only when the stack is empty. |
| TrieNode.NodesIterator.HasNext | src/com/markety/trie/TrieNode.java:237-239 | No node is yielded twice, and only value-bearing nodes reachable from the start are yielded. Once it is false, every such node has been yielded. |
| TrieNode.NodesIterator.Next | src/com/markety/trie/TrieNode.java:242-246 | Returns the pending node and records it as yielded, then advances; each step visits at least one new node or ends the walk. |
| TrieNode.PathsStep | src/com/markety/trie/TrieNode.java:272-273 | A pushed child's path, the parent's path plus the child's char, leads from the start to that child. |
| TrieNode.Extend | src/com/markety/trie/TrieNode.java:272-279 | One frame per child, in the children's order, each carrying that child and the parent's path followed by the child's char. |
| TrieNode.KeysIterator.constructor | src/com/markety/trie/TrieNode.java:254-258 | Starts the walk at the node with the path "" and positions on the first path that holds a value. |
| TrieNode.PopFrame | src/com/markety/trie/TrieNode.java:269-273 | Pops the top frame, whose node was not visited before and whose path leads to it (and no other path does). The rest of the stack is kept, and the walk invariant and the path invariant hold with the node visited. |
| TrieNode.FramesFound | src/com/markety/trie/TrieNode.java:282-285 | Stopping on a popped frame with a value, or on an empty stack, leaves the key iterator state right: the yielded paths plus `next` are exactly the paths to visited nodes that hold a value. |
| TrieNode.FindPath | src/com/markety/trie/TrieNode.java:269-285 | The loop of the key walk on a non-empty stack: visits at least one new node and ends in the state described for `FramesFound`. |
| TrieNode.KeysIterator.FindNext | src/com/markety/trie/TrieNode.java:263-286 | As the node iterator, with each pending node carrying its path from the start. The yielded paths are exactly those of the popped value-bearing nodes. |
| TrieNode.KeysIterator.HasNext | src/com/markety/trie/TrieNode.java:291-293 | No path is yielded twice, and only paths relative to the start that hold a value are yielded. Once it is false, every such path has been yielded. |
| TrieNode.KeysIterator.Next | src/com/markety/trie/TrieNode.java:296-300 | Returns the pending path and records it as yielded, then advances. |
| TrieMap.TrieMap.constructor | src/com/markety/trie/TrieMap.java:49-54 | A fresh mutable empty map. The root is built in RANDOM mode while the map's mode is HASHMAP. |
| TrieMap.TrieMap.WithMode | src/com/markety/trie/TrieMap.java:76-81 | A fresh mutable empty map whose root and mode use the given storage mode. |
| TrieMap.TrieMap.View | src/com/markety/trie/TrieMap.java:60-70 | A map on an existing node of the same arena, in that node's mode. Its key set is what the key iterator yields: exactly the paths below the node that hold a value. |
| TrieMap.TrieMap.Put | src/com/markety/trie/TrieMap.java:92-101 | A view refuses and changes nothing. Otherwise: returns the previous value and stores the new one, other keys keep their values, and the key joins the key set. The size grows by one exactly when there was no previous value. The shared arena only grows: old nodes keep their char, parent, mode and links. |
| TrieMap.PutKeySet | src/com/markety/trie/TrieMap.java:96-99 | Adding the key to the key set only when there was no previous value keeps the key set equal to the stored keys. The set grows by one exactly in that case. |
| TrieMap.TrieMap.Get | src/com/markety/trie/TrieMap.java:107-111 | Reads the live nodes, so it is defined on any map, a stale view included. On a map whose key set is current, a value is returned exactly for the keys in the key set. |
| TrieMap.TrieMap.Remove | src/com/markety/trie/TrieMap.java:117-127 | A view refuses and changes nothing. Otherwise: returns the previous value, the key holds nothing afterwards, other keys keep their values, and the key leaves the key set. The size drops by one exactly when the key was present. The shared arena keeps exactly its nodes: detached ones stay in it. |
| TrieMap.RemoveKeySet | src/com/markety/trie/TrieMap.java:123-124 | Dropping the removed key from the key set keeps it equal to the stored keys. The set shrinks by one exactly when the key was in it. |
| TrieMap.TrieMap.GetSubTrie | src/com/markety/trie/TrieMap.java:139-145 | Absent exactly when no node lies at the key. Otherwise: a new read-only view sharing this arena and that node, whose key set is exactly the suffixes `u` for which key followed by `u` holds a value. |
| TrieMap.TrieMap.Size | src/com/markety/trie/TrieMap.java:165-167 | Zero exactly when no key holds a value. |
| TrieMap.TrieMap.IsEmpty | src/com/markety/trie/TrieMap.java:170-172 | True exactly when no key holds a value. |
| TrieMap.TrieMap.ContainsKey | src/com/markety/trie/TrieMap.java:175-179 | True exactly when the key holds a value. |
| TrieMap.TrieMap.ContainsValue | src/com/markety/trie/TrieMap.java:182-189 | True exactly when some key holds the value. |
| TrieMap.FindValue | src/com/markety/trie/TrieMap.java:183-188 | Draining the node iterator: a result is a reachable node holding the value; no result means no reachable node holds it. |
| TrieMap.ValueFound | src/com/markety/trie/TrieMap.java:185-186 | A reachable node holding the value gives a key mapped to it. |
| TrieMap.ValueMissing | src/com/markety/trie/TrieMap.java:188 | When no reachable node holds the value, no key is mapped to it. |
| TrieMap.PrefixGet | src/com/markety/trie/TrieMap.java:198-202 | Looking up a key that starts with `p` is looking up its rest from `p`'s node. When `p` has no node, no such key holds a value. |
| TrieMap.TrieMap.GetKeysStartingWith | src/com/markety/trie/TrieMap.java:198-210 | Returns, each once, exactly the stored keys that start with the prefix; empty when no node lies at the prefix. |
| TrieMap.TrieMap.Clear | src/com/markety/trie/TrieMap.java:220-225 | A view refuses and changes nothing. Otherwise: a fresh parentless root with char '0' in the map's mode, an empty key set, size 0, and no key holds a value. The new root was not a node before, and every old node, the old root included, is kept unchanged. |
| TrieMap.ViewsStayQueryable | src/com/markety/trie/TrieMap.java:60-70 | A view shares its parent's arena and root node. After the parent stores, removes and clears keys, the view keeps its root and that root is still a node of the well-formed arena. |
| TrieMap.TrieMap.KeySetIsFullKeys | src/com/markety/trie/TrieMap.java:96-99 | For a map whose root has no parent, the key set is exactly the set of full keys of the value-bearing nodes below the root. |

## Left out

- Demo.java, the printing usage sample, is not part of this model.
- TrieFactory's three factory methods only call `TrieMap(mode)` with one of the three constants. The mode is the parameter of `TrieMap.TrieMap.WithMode`.
- HashMap versus TreeMap is recorded per node (`Storage`), but neither container is modelled. So the order in which children are pushed, and hence the iterators' order, is left unspecified (`TrieNode.Children`). TreeMap's sorted order is not modelled.
- TrieMap.TrieMap.Put takes a non-null value. `put(key, null)` is not modelled at the map level; the node-level put takes an optional value.
- The `Map` interface glue is not modelled:
  - the `instanceof String` tests in `get`, `remove` and `containsKey`;
  - the `Entry` class, `entrySet`, `values` and `putAll`;
  - the iterator accessors `iterator()` and `getKeySetIterator()`;
  - the getters `getChar`, `getValue` and `getChildsStorageMode`, which are fields of the node record here.
- TrieMap.TrieMap.ContainsValue compares values with `==` on values, where Java compares references.
- TrieNode.NodesIterator and TrieNode.KeysIterator walk the arena as it was when the iterator was made. Java walks the live nodes, and the result of changing the trie during an iteration is not modelled.
- TrieMap.TrieMap.Valid is not claimed to survive a change to the parent map, so a view's stale key set (and hence its `size`, `isEmpty` and `containsKey`) is not related to the live nodes after such a change. Only `TrieMap.TrieMap.Shape` survives it (`TrieMap.ViewsStayQueryable`), and the view's `Get`, `getSubTrie`, `containsValue` and `getKeysStartingWith` still read the live nodes.
- Characters are Dafny `char`s, Unicode scalar values, where a Java `char` is a UTF-16 code unit. A key with a supplementary character (such as U+1F600) is one char here and two chars, and two trie nodes, in Java. So the node count of `TrieNode.Arena.Put` and the parity used by RANDOM mode differ for such keys, and keys holding a lone surrogate (such as `getKeysStartingWith("\uD83D")`) cannot be written at all.
- Concurrency is not modelled.
- TrieMap.TrieMap.Size is unbounded, where Java returns an `int`.
- Detached nodes, and the old tree after `clear`, stay in the arena, where Java leaves them to the garbage collector. Nothing reachable from the map's root refers to them; a view may still be rooted at one, as a Java view may still hold a detached node.
