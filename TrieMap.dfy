/** The map facade (`com.markety.trie.TrieMap`): a string-keyed map backed
    by a trie whose root is a node of a shared arena, with a set of the keys
    put so far (`keySet`). A map made by `getSubTrie` is a read-only view:
    it shares the arena and a node of its parent, takes its key set from
    the key iterator, and refuses every change. */
module TrieMap {
  import opened Util
  import TrieNode

  /** The outcome of a modifying call: read-only views refuse it (where the
      Java code throws a RuntimeException). */
  datatype Result<R> = Ok(value: R) | ReadOnlyView

  /** `s` is `p` followed by something. */
  predicate HasPrefix(p: string, s: string)
  {
    |p| <= |s| && s[..|p|] == p
  }

  /** Looking up `p + u` from `h` is looking up `u` from `p`'s node. */
  lemma PrefixGet<T>(N: TrieNode.Nodes<T>, h: TrieNode.Handle, p: string, s: string)
    requires TrieNode.Wf(N) && h in N && HasPrefix(p, s)
    ensures TrieNode.GetNode(N, h, p).Some? ==>
              TrieNode.Get(N, h, s) == TrieNode.Get(N, TrieNode.GetNode(N, h, p).value, s[|p|..])
    ensures TrieNode.GetNode(N, h, p).None? ==> TrieNode.Get(N, h, s).None?
  {
    assert p + s[|p|..] == s;
    TrieNode.GetNodeAppend(N, h, p, s[|p|..]);
  }

  /** The key set after a `put` of `key` into the arena below `root`:
      adding `key` when it had no value keeps it equal to the stored keys. */
  lemma PutKeySet<T>(N: TrieNode.Nodes<T>, M: TrieNode.Nodes<T>, root: TrieNode.Handle, K: set<string>,
                     key: string, prev: Option<T>)
    requires TrieNode.Wf(N) && TrieNode.Wf(M) && root in N && root in M
    requires forall w :: w in K <==> TrieNode.Get(N, root, w).Some?
    requires prev == TrieNode.Get(N, root, key) && TrieNode.Get(M, root, key).Some?
    requires forall u :: u != key ==> TrieNode.Get(M, root, u) == TrieNode.Get(N, root, u)
    ensures forall w :: w in K + {key} <==> TrieNode.Get(M, root, w).Some?
    ensures (if prev.None? then K + {key} else K) == K + {key}
    ensures |K + {key}| == |K| + (if prev.None? then 1 else 0)
  {
    if prev.Some? {
      assert key in K;
    }
  }

  /** The key set after a `remove` of `key`: dropping `key` keeps it equal
      to the stored keys. */
  lemma RemoveKeySet<T>(N: TrieNode.Nodes<T>, M: TrieNode.Nodes<T>, root: TrieNode.Handle, K: set<string>,
                        key: string)
    requires TrieNode.Wf(N) && TrieNode.Wf(M) && root in N && root in M
    requires forall w :: w in K <==> TrieNode.Get(N, root, w).Some?
    requires TrieNode.Get(M, root, key).None?
    requires forall u :: u != key ==> TrieNode.Get(M, root, u) == TrieNode.Get(N, root, u)
    ensures forall w :: w in K - {key} <==> TrieNode.Get(M, root, w).Some?
    ensures |K - {key}| == |K| - (if key in K then 1 else 0)
  {
  }

  /** A reachable node holding `value` gives a key mapped to `value`. */
  lemma ValueFound<T>(N: TrieNode.Nodes<T>, root: TrieNode.Handle, n: TrieNode.Handle, value: T)
    requires TrieNode.Reach(N, root, n) && N[n].value == Some(value)
    ensures exists w :: TrieNode.Get(N, root, w) == Some(value)
  {
    var u :| TrieNode.GetNode(N, root, u) == Some(n);
    assert TrieNode.Get(N, root, u) == Some(value);
  }

  /** When no reachable node holds `value`, no key is mapped to `value`. */
  lemma ValueMissing<T>(N: TrieNode.Nodes<T>, root: TrieNode.Handle, value: T)
    requires TrieNode.Wf(N) && root in N
    requires forall n :: TrieNode.Reach(N, root, n) ==> N[n].value != Some(value)
    ensures forall w :: TrieNode.Get(N, root, w) != Some(value)
  {
    forall w ensures TrieNode.Get(N, root, w) != Some(value) {
      var g := TrieNode.GetNode(N, root, w);
      if g.Some? {
        assert TrieNode.Reach(N, root, g.value);
      }
    }
  }

  /** The loop of `containsValue`: drains the node iterator `it` and stops
      at the first node it hands out that holds `value`. */
  method FindValue<T(==)>(it: TrieNode.NodesIterator<T>, value: T) returns (found: Option<TrieNode.Handle>)
    requires it.Valid() && it.yielded == []
    modifies it
    ensures found.Some? ==>
              TrieNode.Reach(it.nodes, it.start, found.value) && it.nodes[found.value].value == Some(value)
    ensures found.None? ==>
              forall n :: TrieNode.Reach(it.nodes, it.start, n) ==> it.nodes[n].value != Some(value)
  {
    while it.HasNext()
      invariant it.Valid()
      invariant forall n :: n in it.yielded ==> it.nodes[n].value != Some(value)
      decreases it.Remaining(), if it.next.Some? then 1 else 0
    {
      var n := it.Next();
      if it.nodes[n.value].value == Some(value) {
        return n;
      }
    }
    return None;
  }

  class TrieMap<T(==)> {
    /** The node store; shared with the views made from this map. */
    const arena: TrieNode.Arena<T>
    var root: TrieNode.Handle
    /** `childStorageMode`: the mode `clear` builds the new root with. */
    const mode: TrieNode.Mode
    var keySet: set<string>
    const readOnly: bool

    /** The arena is well formed and the root is one of its nodes. Every
        map keeps this, a view included when its parent map changes the
        shared arena, so the lookups of a view stay defined. */
    ghost predicate Shape()
      reads this, arena
    {
      arena.Valid() && root in arena.nodes
    }

    /** `Shape`, and the key set holds exactly the keys that have a value
        below the root. A view keeps this only while its parent map is left
        unchanged. */
    ghost predicate Valid()
      reads this, arena
    {
      && Shape()
      && (forall w :: w in keySet <==> TrieNode.Get(arena.nodes, root, w).Some?)
    }

    /** `TrieMap()`: the root is built in RANDOM mode, but the mode kept for
        `clear` is HASHMAP. */
    constructor ()
      ensures Valid() && fresh(arena) && !readOnly && keySet == {}
      ensures mode == TrieNode.HASHMAP
      ensures arena.nodes[root] == TrieNode.Node('0', None, map[], None, TrieNode.RANDOM,
                                                 TrieNode.StorageFor(TrieNode.RANDOM, '0'))
    {
      var a := new TrieNode.Arena();
      var r := a.NewNode('0', None, TrieNode.RANDOM, None);
      arena := a;
      root := r;
      mode := TrieNode.HASHMAP;
      readOnly := false;
      keySet := {};
      new;
      forall w ensures TrieNode.Get(arena.nodes, root, w).None? {
        TrieNode.EmptyNodeGet(arena.nodes, root, w);
      }
    }

    /** `TrieMap(childsStorageMode)`: root and later nodes use mode `m`. */
    constructor WithMode(m: TrieNode.Mode)
      ensures Valid() && fresh(arena) && !readOnly && keySet == {}
      ensures mode == m
      ensures arena.nodes[root] == TrieNode.Node('0', None, map[], None, m, TrieNode.StorageFor(m, '0'))
    {
      var a := new TrieNode.Arena();
      var r := a.NewNode('0', None, m, None);
      arena := a;
      root := r;
      mode := m;
      readOnly := false;
      keySet := {};
      new;
      forall w ensures TrieNode.Get(arena.nodes, root, w).None? {
        TrieNode.EmptyNodeGet(arena.nodes, root, w);
      }
    }

    /** The private `TrieMap(entry, readOnly)`: a map rooted at node `entry`
        of arena `a`, in that node's mode, whose key set is filled from the
        key iterator of `entry`. */
    constructor View(a: TrieNode.Arena<T>, entry: TrieNode.Handle, ro: bool)
      requires a.Valid() && entry in a.nodes
      ensures Valid() && arena == a && root == entry && readOnly == ro
      ensures mode == a.nodes[entry].mode
      ensures forall u :: u in keySet <==> TrieNode.Get(a.nodes, entry, u).Some?
    {
      arena := a;
      root := entry;
      mode := a.nodes[entry].mode;
      readOnly := ro;
      var keys: set<string> := {};
      var it := new TrieNode.KeysIterator(a.nodes, entry);
      while it.HasNext()
        invariant it.Valid() && it.nodes == a.nodes && it.start == entry
        invariant forall u :: u in keys <==> u in it.yielded
        decreases it.Remaining(), if it.next.Some? then 1 else 0
      {
        var k := it.Next();
        keys := keys + {k.value};
      }
      keySet := keys;
    }

    /** `put(key, value)`: a view refuses; otherwise the value is stored,
        the previous one returned, and the key added to the key set when
        there was none. */
    method Put(key: string, value: T) returns (r: Result<Option<T>>)
      requires Shape() && (!readOnly ==> Valid())
      modifies this, arena
      ensures r.ReadOnlyView? <==> readOnly
      ensures readOnly ==> unchanged(this, arena)
      ensures !readOnly ==>
                && Valid() && root == old(root)
                && r == Ok(old(TrieNode.Get(arena.nodes, root, key)))
                && TrieNode.Get(arena.nodes, root, key) == Some(value)
                && (forall u :: u != key ==> TrieNode.Get(arena.nodes, root, u) == old(TrieNode.Get(arena.nodes, root, u)))
                && keySet == (if r.value.None? then old(keySet) + {key} else old(keySet))
                && keySet == old(keySet) + {key}
                && |keySet| == old(|keySet|) + (if r.value.None? then 1 else 0)
                && arena.nodes[root].parent == old(arena.nodes[root].parent)
                && TrieNode.Grows(old(arena.nodes), arena.nodes)
    {
      if readOnly {
        return ReadOnlyView;
      }
      ghost var before := arena.nodes;
      var prev := arena.Put(root, key, Some(value));
      PutKeySet(before, arena.nodes, root, keySet, key, prev);
      if prev.None? {
        keySet := keySet + {key};
      }
      r := Ok(prev);
    }

    /** `get(key)`: the value stored at `key`, read from the live nodes; on
        a map whose key set is current, present exactly for its keys. */
    function Get(key: string): (r: Option<T>)
      reads this, arena
      requires Shape()
      ensures Valid() ==> (r.Some? <==> key in keySet)
    {
      TrieNode.Get(arena.nodes, root, key)
    }

    /** `remove(key)`: a view refuses; otherwise the key loses its value
        (with unused branches pruned) and leaves the key set. */
    method Remove(key: string) returns (r: Result<Option<T>>)
      requires Shape() && (!readOnly ==> Valid())
      modifies this, arena
      ensures r.ReadOnlyView? <==> readOnly
      ensures readOnly ==> unchanged(this, arena)
      ensures !readOnly ==>
                && Valid() && root == old(root)
                && r == Ok(old(TrieNode.Get(arena.nodes, root, key)))
                && TrieNode.Get(arena.nodes, root, key).None?
                && (forall u :: u != key ==> TrieNode.Get(arena.nodes, root, u) == old(TrieNode.Get(arena.nodes, root, u)))
                && keySet == old(keySet) - {key}
                && |keySet| == old(|keySet|) - (if key in old(keySet) then 1 else 0)
                && arena.nodes[root].parent == old(arena.nodes[root].parent)
                && arena.nodes.Keys == old(arena.nodes).Keys
    {
      if readOnly {
        return ReadOnlyView;
      }
      ghost var before := arena.nodes;
      var prev, chain := arena.Remove(root, key);
      RemoveKeySet(before, arena.nodes, root, keySet, key);
      keySet := keySet - {key};
      r := Ok(prev);
    }

    /** `getSubTrie(key)`: None when no node lies at `key`; otherwise a new
        read-only view on that node, sharing this map's arena, whose key
        set is the keys stored below `key`, relative to it. */
    method GetSubTrie(key: string) returns (sub: Option<TrieMap<T>>)
      requires Shape()
      ensures sub.None? <==> TrieNode.GetNode(arena.nodes, root, key).None?
      ensures sub.Some? ==>
                && fresh(sub.value) && sub.value.Valid() && sub.value.readOnly
                && sub.value.arena == arena
                && sub.value.root == TrieNode.GetNode(arena.nodes, root, key).value
                && (forall u :: u in sub.value.keySet <==> TrieNode.Get(arena.nodes, root, key + u).Some?)
    {
      var entry := TrieNode.GetNode(arena.nodes, root, key);
      if entry.None? {
        return None;
      }
      var view := new TrieMap.View(arena, entry.value, true);
      forall u ensures TrieNode.Get(arena.nodes, entry.value, u) == TrieNode.Get(arena.nodes, root, key + u) {
        TrieNode.GetNodeAppend(arena.nodes, root, key, u);
      }
      sub := Some(view);
    }

    /** `size()`: the size of the key set, zero exactly when no key holds
        a value. */
    function Size(): (n: nat)
      reads this, arena
      ensures Valid() ==> (n == 0 <==> forall w :: TrieNode.Get(arena.nodes, root, w).None?)
    {
      |keySet|
    }

    /** `isEmpty()`: no key holds a value. */
    function IsEmpty(): (b: bool)
      reads this, arena
      ensures Valid() ==> (b <==> forall w :: TrieNode.Get(arena.nodes, root, w).None?)
    {
      Size() == 0
    }

    /** `containsKey(key)`: whether `key` holds a value. */
    function ContainsKey(key: string): (b: bool)
      reads this, arena
      ensures Valid() ==> (b <==> TrieNode.Get(arena.nodes, root, key).Some?)
    {
      key in keySet
    }

    /** `containsValue(value)`: walks the node iterator until a node holds
        `value`; true exactly when some key holds it. */
    method ContainsValue(value: T) returns (b: bool)
      requires Shape()
      ensures b <==> exists w :: TrieNode.Get(arena.nodes, root, w) == Some(value)
    {
      var it := new TrieNode.NodesIterator(arena.nodes, root);
      var found := FindValue(it, value);
      if found.Some? {
        ValueFound(arena.nodes, root, found.value, value);
      } else {
        ValueMissing(arena.nodes, root, value);
      }
      return found.Some?;
    }

    /** `getKeysStartingWith(prefix)`: `prefix` followed by each key of the
        view at `prefix` (empty when there is none), which are exactly the
        stored keys that start with `prefix`, each once. */
    method GetKeysStartingWith(prefix: string) returns (list: seq<string>)
      requires Shape()
      ensures Distinct(list)
      ensures forall s :: s in list <==> HasPrefix(prefix, s) && TrieNode.Get(arena.nodes, root, s).Some?
    {
      var trie := GetSubTrie(prefix);
      if trie.None? {
        forall s | HasPrefix(prefix, s) ensures TrieNode.Get(arena.nodes, root, s).None? {
          PrefixGet(arena.nodes, root, prefix, s);
        }
        return [];
      }
      var suffixes := trie.value.keySet;
      list := [];
      var rest := suffixes;
      while rest != {}
        invariant rest <= suffixes
        invariant Distinct(list)
        invariant forall s :: s in list <==> HasPrefix(prefix, s) && s[|prefix|..] in suffixes - rest
        decreases rest
      {
        var u :| u in rest;
        assert (prefix + u)[..|prefix|] == prefix && (prefix + u)[|prefix|..] == u;
        forall s | HasPrefix(prefix, s) && s[|prefix|..] == u ensures s == prefix + u {
          assert s == s[..|prefix|] + s[|prefix|..];
        }
        list := list + [prefix + u];
        rest := rest - {u};
      }
      forall s | HasPrefix(prefix, s)
        ensures s[|prefix|..] in suffixes <==> TrieNode.Get(arena.nodes, root, s).Some?
      {
        assert prefix + s[|prefix|..] == s;
      }
    }

    /** `clear()`: a view refuses; otherwise the map gets a fresh empty
        root in this map's mode and an empty key set. */
    method Clear() returns (r: Result<()>)
      requires Shape() && (!readOnly ==> Valid())
      modifies this, arena
      ensures r.ReadOnlyView? <==> readOnly
      ensures readOnly ==> unchanged(this, arena)
      ensures !readOnly ==>
                && Valid() && keySet == {} && Size() == 0
                && arena.nodes[root] == TrieNode.Node('0', None, map[], None, mode, TrieNode.StorageFor(mode, '0'))
                && (forall w :: TrieNode.Get(arena.nodes, root, w).None?)
                && root !in old(arena.nodes)
                && (forall x :: x in old(arena.nodes) ==> x in arena.nodes && arena.nodes[x] == old(arena.nodes)[x])
    {
      if readOnly {
        return ReadOnlyView;
      }
      root := arena.NewNode('0', None, mode, None);
      keySet := {};
      forall w ensures TrieNode.Get(arena.nodes, root, w).None? {
        TrieNode.EmptyNodeGet(arena.nodes, root, w);
      }
      r := Ok(());
    }

    /** For a map whose root has no parent (every map but a view), the key
        set is the set of full keys (`getKey`) of the value-bearing nodes
        below the root. */
    lemma KeySetIsFullKeys(w: string)
      requires Valid() && arena.nodes[root].parent.None?
      ensures w in keySet <==>
                exists n :: n in arena.nodes && TrieNode.Reach(arena.nodes, root, n)
                            && arena.nodes[n].value.Some? && TrieNode.GetKey(arena.nodes, n) == w
    {
      TrieNode.FullKeys(arena.nodes, root, w);
    }
  }

  /** A view shares its parent's arena: after the parent stores, removes
      and clears keys, the view's root is still a node of that arena, so
      the view can still be queried (its key set may be stale). */
  method ViewsStayQueryable<T(==)>(m: TrieMap<T>, v: TrieMap<T>, k1: string, k2: string, value: T)
    requires m.Valid() && !m.readOnly && v.Shape() && v.arena == m.arena && v != m
    modifies m, m.arena
    ensures v.Shape() && v.root == old(v.root)
  {
    var _ := m.Put(k1, value);
    assert v.Shape();
    var _ := m.Remove(k2);
    assert v.Shape();
    var _ := m.Clear();
  }
}
