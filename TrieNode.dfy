/** The node engine of the character trie (`com.markety.trie.TrieNode`).

    Java nodes point at their children and back at their parent. Here every
    node is a record in an arena (`Nodes<T>`, a map from handles to records);
    children and parent are handles. Lookups (`FindChild`, `GetNode`, `Get`,
    `GetKey`) are functions of the arena; `put`, `remove` and the node
    constructor are methods of the `Arena` class, which owns the map. */
module TrieNode {
  import opened Util

  /** A reference to a node: its index in the arena. */
  type Handle = nat

  /** A Java `byte`: the child-storage mode handed to a node's constructor. */
  newtype Mode = x: int | -128 <= x < 128

  /** CHILD_STORAGE_MODE_USING_HASHMAP */
  const HASHMAP: Mode := 0
  /** CHILD_STORAGE_MODE_USING_TREEMAP */
  const TREEMAP: Mode := 1
  /** CHILD_STORAGE_MODE_USING_RANDOM */
  const RANDOM: Mode := 2

  /** The child container a node allocated: a HashMap or a TreeMap. */
  datatype Storage = HashStorage | TreeStorage

  /** One trie node: its char, its optional value, its children by char, its
      parent (None for a root) and the storage mode it was built with. */
  datatype Node<T> = Node(
    ch: char,
    value: Option<T>,
    children: map<char, Handle>,
    parent: Option<Handle>,
    mode: Mode,
    storage: Storage)

  type Nodes<T> = map<Handle, Node<T>>

  /** The container the node constructor picks: the named one for HASHMAP and
      TREEMAP; for any other mode (RANDOM) the parity of the node's own char
      decides, so the choice is deterministic. */
  function StorageFor(mode: Mode, ch: char): (s: Storage)
    ensures mode == HASHMAP ==> s == HashStorage
    ensures mode == TREEMAP ==> s == TreeStorage
    ensures mode != HASHMAP && mode != TREEMAP ==> (s == HashStorage <==> (ch as int) % 2 == 0)
  {
    if mode == HASHMAP then HashStorage
    else if mode == TREEMAP then TreeStorage
    else if (ch as int) % 2 == 0 then HashStorage
    else TreeStorage
  }

  /** Shape of a well-formed arena: a child stored under char `k` has that
      char and points back at its parent; a parent is an older node (smaller
      handle), which makes the parent relation acyclic. Nodes that were
      detached keep their parent pointer but need not be a child of it. */
  ghost predicate Wf<T>(N: Nodes<T>)
  {
    && (forall h, k :: h in N && k in N[h].children ==>
          N[h].children[k] in N && N[N[h].children[k]].parent == Some(h) && N[N[h].children[k]].ch == k)
    && (forall h {:trigger N[h].parent} :: h in N && N[h].parent.Some? ==> N[h].parent.value in N && N[h].parent.value < h)
  }

  // ---------------------------------------------------------------------
  // Lookups (pure)
  // ---------------------------------------------------------------------

  /** `findChild`: the child of `h` stored under char `k`, if any. */
  function FindChild<T>(N: Nodes<T>, h: Handle, k: char): (r: Option<Handle>)
    requires Wf(N) && h in N
    ensures r.None? <==> k !in N[h].children
    ensures r.Some? ==> r.value in N && N[r.value].parent == Some(h) && N[r.value].ch == k && h < r.value
  {
    if k in N[h].children then Some(N[h].children[k]) else None
  }

  /** `getNode`: follows `w` one char at a time from `h`; None as soon as a
      char has no child. Never creates nodes. */
  function GetNode<T>(N: Nodes<T>, h: Handle, w: string): (r: Option<Handle>)
    requires Wf(N) && h in N
    ensures r.Some? ==> r.value in N && h <= r.value
    ensures |w| > 0 && FindChild(N, h, w[0]).None? ==> r.None?
    decreases |w|
  {
    if |w| == 0 then Some(h)
    else match FindChild(N, h, w[0])
      case None => None
      case Some(c) => GetNode(N, c, w[1..])
  }

  /** `get`: the value of the node at `w`, None when there is no such node. */
  function Get<T>(N: Nodes<T>, h: Handle, w: string): (r: Option<T>)
    requires Wf(N) && h in N
    ensures r.Some? ==> GetNode(N, h, w).Some?
  {
    match GetNode(N, h, w)
    case None => None
    case Some(n) => N[n].value
  }

  /** `getKey`: the chars of the node's ancestors (the root's own char
      excluded) followed by its own char. */
  function GetKey<T>(N: Nodes<T>, h: Handle): (k: string)
    requires Wf(N) && h in N
    ensures k == [] <==> N[h].parent.None?
    ensures N[h].parent.Some? ==> k[|k| - 1] == N[h].ch
    decreases h
  {
    match N[h].parent
    case None => []
    case Some(p) => GetKey(N, p) + [N[h].ch]
  }

  /** Node `n` is reachable from `a` along child links. */
  ghost predicate Reach<T>(N: Nodes<T>, a: Handle, n: Handle)
  {
    Wf(N) && a in N && exists u :: GetNode(N, a, u) == Some(n)
  }

  /** How many leading chars of `w` already have a node below `h`. */
  ghost function Matched<T>(N: Nodes<T>, h: Handle, w: string): (m: nat)
    requires Wf(N) && h in N
    ensures m <= |w|
    decreases |w|
  {
    if |w| == 0 then 0
    else match FindChild(N, h, w[0])
      case None => 0
      case Some(c) => 1 + Matched(N, c, w[1..])
  }

  // ---------------------------------------------------------------------
  // Facts about lookups
  // ---------------------------------------------------------------------

  /** The empty path names the node itself: `getNode("")` is `this`. */
  lemma GetNodeEmpty<T>(N: Nodes<T>, h: Handle)
    requires Wf(N) && h in N
    ensures GetNode(N, h, []) == Some(h) && Get(N, h, []) == N[h].value
    ensures Reach(N, h, h)
  {
    assert GetNode(N, h, []) == Some(h);
  }

  /** Looking up `u + v` is looking up `u`, then `v` from the node found. */
  lemma {:induction false} GetNodeAppend<T>(N: Nodes<T>, a: Handle, u: string, v: string)
    requires Wf(N) && a in N
    ensures GetNode(N, a, u + v) ==
              if GetNode(N, a, u).None? then None else GetNode(N, GetNode(N, a, u).value, v)
    decreases |u|
  {
    if |u| == 0 {
      assert u + v == v;
    } else {
      assert (u + v)[0] == u[0];
      assert (u + v)[1..] == u[1..] + v;
      match FindChild(N, a, u[0]) {
        case None =>
        case Some(c) => GetNodeAppend(N, c, u[1..], v);
      }
    }
  }

  /** Once a prefix has no node, no extension of it has one. */
  lemma GetNodeMissExtends<T>(N: Nodes<T>, a: Handle, u: string, v: string)
    requires Wf(N) && a in N && GetNode(N, a, u).None?
    ensures GetNode(N, a, u + v).None? && Get(N, a, u + v).None?
  {
    GetNodeAppend(N, a, u, v);
  }

  /** Nodes found below `a` are younger than `a`, strictly so for a
      non-empty path. */
  lemma {:induction false} GetNodeOrder<T>(N: Nodes<T>, a: Handle, u: string)
    requires Wf(N) && a in N && GetNode(N, a, u).Some?
    ensures a <= GetNode(N, a, u).value
    ensures |u| > 0 ==> a < GetNode(N, a, u).value
    decreases |u|
  {
    if |u| > 0 {
      var c := FindChild(N, a, u[0]).value;
      GetNodeOrder(N, c, u[1..]);
    }
  }

  /** The full key of a node found from `a` along `u` is `a`'s key followed
      by `u`. */
  lemma {:induction false} GetNodeKey<T>(N: Nodes<T>, a: Handle, u: string)
    requires Wf(N) && a in N && GetNode(N, a, u).Some?
    ensures GetKey(N, GetNode(N, a, u).value) == GetKey(N, a) + u
    decreases |u|
  {
    if |u| == 0 {
    } else {
      var c := FindChild(N, a, u[0]).value;
      assert GetKey(N, c) == GetKey(N, a) + [u[0]];
      GetNodeKey(N, c, u[1..]);
      assert [u[0]] + u[1..] == u;
      assert GetKey(N, a) + [u[0]] + u[1..] == GetKey(N, a) + u;
    }
  }

  /** Two paths from the same node that reach the same node are equal: the
      trie is a tree. */
  lemma GetNodeUnique<T>(N: Nodes<T>, a: Handle, u: string, v: string)
    requires Wf(N) && a in N && GetNode(N, a, u).Some? && GetNode(N, a, u) == GetNode(N, a, v)
    ensures u == v
  {
    GetNodeKey(N, a, u);
    GetNodeKey(N, a, v);
    var k := GetKey(N, a);
    assert (k + u)[|k|..] == u;
    assert (k + v)[|k|..] == v;
  }

  /** From a root (whose key is ""), a key holds a value exactly when some
      reachable value-bearing node has that key as its full key. */
  lemma FullKeys<T>(N: Nodes<T>, root: Handle, w: string)
    requires Wf(N) && root in N && N[root].parent.None?
    ensures Get(N, root, w).Some? <==>
              exists n :: n in N && Reach(N, root, n) && N[n].value.Some? && GetKey(N, n) == w
  {
    if Get(N, root, w).Some? {
      var n := GetNode(N, root, w).value;
      GetNodeKey(N, root, w);
      assert n in N && Reach(N, root, n) && N[n].value.Some? && GetKey(N, n) == w;
    }
    if exists n :: n in N && Reach(N, root, n) && N[n].value.Some? && GetKey(N, n) == w {
      var n :| n in N && Reach(N, root, n) && N[n].value.Some? && GetKey(N, n) == w;
      var u :| GetNode(N, root, u) == Some(n);
      GetNodeKey(N, root, u);
      assert u == w;
    }
  }

  /** A node reached from `h` other than `h` itself hangs, under its own
      char, from a parent that is reachable from `h` too. */
  lemma ReachParent<T>(N: Nodes<T>, h: Handle, c: Handle)
    requires Reach(N, h, c) && c != h
    ensures c in N && N[c].parent.Some?
    ensures Reach(N, h, N[c].parent.value)
    ensures N[c].ch in N[N[c].parent.value].children && N[N[c].parent.value].children[N[c].ch] == c
  {
    var u :| GetNode(N, h, u) == Some(c);
    assert |u| > 0;
    var n := |u| - 1;
    GetNodeAppend(N, h, u[..n], [u[n]]);
    assert u[..n] + [u[n]] == u;
    var p := GetNode(N, h, u[..n]).value;
    assert GetNode(N, p, [u[n]]) == Some(c);
    assert FindChild(N, p, u[n]) == Some(c);
  }

  /** A node without value and children holds nothing at any path. */
  lemma EmptyNodeGet<T>(N: Nodes<T>, h: Handle, u: string)
    requires Wf(N) && h in N && N[h].value.None? && N[h].children == map[]
    ensures Get(N, h, u).None?
  {
    if |u| > 0 {
      assert FindChild(N, h, u[0]).None?;
    }
  }

  // ---------------------------------------------------------------------
  // How updates affect lookups
  // ---------------------------------------------------------------------

  /** `b` extends `a`: every node keeps its char, parent and mode and its
      existing child links; a child link added to an old node leads to a
      new node. */
  ghost predicate Grows<T>(a: Nodes<T>, b: Nodes<T>)
  {
    && a.Keys <= b.Keys
    && (forall x :: x in a ==>
          b[x].ch == a[x].ch && b[x].parent == a[x].parent && b[x].mode == a[x].mode && b[x].storage == a[x].storage)
    && (forall x, k :: x in a && k in a[x].children ==> k in b[x].children && b[x].children[k] == a[x].children[k])
    && (forall x, k :: x in a && k in b[x].children && k !in a[x].children ==> b[x].children[k] !in a)
  }

  /** All values of `b` are those of `a` (None for new nodes), except
      possibly the value of node `t`. */
  ghost predicate ValuesKept<T>(a: Nodes<T>, b: Nodes<T>, t: Handle)
  {
    forall x :: x in b && x != t ==> b[x].value == if x in a then a[x].value else None
  }

  lemma GrowsTrans<T>(a: Nodes<T>, b: Nodes<T>, c: Nodes<T>)
    requires Grows(a, b) && Grows(b, c)
    ensures Grows(a, c)
  {
    forall x, k | x in a && k in c[x].children && k !in a[x].children
      ensures c[x].children[k] !in a
    {
      if k in b[x].children {
        assert c[x].children[k] == b[x].children[k];
      }
    }
  }

  /** Everything reachable from a new node is new. */
  lemma {:induction false} FreshBelow<T>(a: Nodes<T>, b: Nodes<T>, x: Handle, u: string)
    requires Wf(a) && Wf(b) && Grows(a, b) && x in b && x !in a
    ensures GetNode(b, x, u).Some? ==> GetNode(b, x, u).value !in a
    decreases |u|
  {
    if |u| > 0 && FindChild(b, x, u[0]).Some? {
      FreshBelow(a, b, FindChild(b, x, u[0]).value, u[1..]);
    }
  }

  /** Growing the arena keeps every lookup from an old node that does not end
      at the one node whose value may have changed. */
  lemma {:induction false} GrowsGet<T>(a: Nodes<T>, b: Nodes<T>, t: Handle, x: Handle, u: string)
    requires Wf(a) && Wf(b) && Grows(a, b) && ValuesKept(a, b, t) && x in a
    requires GetNode(b, x, u) != Some(t)
    ensures Get(b, x, u) == Get(a, x, u)
    decreases |u|
  {
    if |u| > 0 {
      var k := u[0];
      if k in a[x].children {
        GrowsGet(a, b, t, a[x].children[k], u[1..]);
      } else if k in b[x].children {
        var c := b[x].children[k];
        FreshBelow(a, b, c, u[1..]);
      }
    }
  }

  /** After a put of `w` from `h`, every other key below `h` is unchanged. */
  lemma PutFrame<T>(a: Nodes<T>, b: Nodes<T>, h: Handle, w: string)
    requires Wf(a) && Wf(b) && Grows(a, b) && h in a
    requires GetNode(b, h, w).Some? && ValuesKept(a, b, GetNode(b, h, w).value)
    ensures forall u :: u != w ==> Get(b, h, u) == Get(a, h, u)
  {
    var t := GetNode(b, h, w).value;
    forall u | u != w
      ensures Get(b, h, u) == Get(a, h, u)
    {
      if GetNode(b, h, u) == Some(t) {
        GetNodeUnique(b, h, u, w);
      }
      GrowsGet(a, b, t, h, u);
    }
  }

  /** Setting the value of `t` leaves the shape alone and changes exactly
      the keys that end at `t`. */
  lemma {:induction false} SetValueGet<T>(N: Nodes<T>, t: Handle, val: Option<T>, s: Handle, u: string)
    requires Wf(N) && t in N && s in N
    ensures Wf(N[t := N[t].(value := val)])
    ensures GetNode(N[t := N[t].(value := val)], s, u) == GetNode(N, s, u)
    ensures Get(N[t := N[t].(value := val)], s, u) ==
              if GetNode(N, s, u) == Some(t) then val else Get(N, s, u)
    decreases |u|
  {
    var M := N[t := N[t].(value := val)];
    assert Wf(M);
    if |u| > 0 && FindChild(N, s, u[0]).Some? {
      SetValueGet(N, t, val, FindChild(N, s, u[0]).value, u[1..]);
    }
  }

  /** `put("", v)`: this node takes `v`; no other key below it changes. */
  lemma SetOwnValue<T>(N: Nodes<T>, h: Handle, val: Option<T>)
    requires Wf(N) && h in N
    ensures Wf(N[h := N[h].(value := val)])
    ensures Grows(N, N[h := N[h].(value := val)])
    ensures ValuesKept(N, N[h := N[h].(value := val)], h)
    ensures Get(N[h := N[h].(value := val)], h, []) == val
    ensures forall u :: u != [] ==> Get(N[h := N[h].(value := val)], h, u) == Get(N, h, u)
  {
    var M := N[h := N[h].(value := val)];
    SetValueGet(N, h, val, h, []);
    forall u | u != []
      ensures Get(M, h, u) == Get(N, h, u)
    {
      SetValueGet(N, h, val, h, u);
      if GetNode(N, h, u) == Some(h) {
        GetNodeEmpty(N, h);
        GetNodeUnique(N, h, u, []);
      }
    }
    assert Grows(N, M);
  }

  /** Detaching a child that has neither a value nor children changes no
      lookup's value. */
  lemma {:induction false} DetachGet<T>(N: Nodes<T>, x: Handle, k: char, s: Handle, u: string)
    requires Wf(N) && x in N && s in N && k in N[x].children
    requires N[N[x].children[k]].value.None? && N[N[x].children[k]].children == map[]
    ensures Wf(N[x := N[x].(children := N[x].children - {k})])
    ensures Get(N[x := N[x].(children := N[x].children - {k})], s, u) == Get(N, s, u)
    decreases |u|
  {
    var M := N[x := N[x].(children := N[x].children - {k})];
    assert Wf(M);
    if |u| > 0 {
      if s == x && u[0] == k {
        EmptyNodeGet(N, N[x].children[k], u[1..]);
      } else if FindChild(N, s, u[0]).Some? {
        DetachGet(N, x, k, FindChild(N, s, u[0]).value, u[1..]);
      }
    }
  }

  /** Lookups from `x` read only nodes with handles at least `x`, so two
      arenas that agree on those nodes give the same answers. */
  lemma {:induction false} AgreeAboveGet<T>(N: Nodes<T>, M: Nodes<T>, h: Handle, x: Handle, u: string)
    requires Wf(N) && Wf(M) && x in N && h <= x
    requires forall y :: y in N && h <= y ==> y in M && M[y] == N[y]
    ensures x in M && GetNode(M, x, u) == GetNode(N, x, u) && Get(M, x, u) == Get(N, x, u)
    decreases |u|
  {
    if |u| > 0 && FindChild(N, x, u[0]).Some? {
      AgreeAboveGet(N, M, h, FindChild(N, x, u[0]).value, u[1..]);
    }
  }

  /** The arena after linking a new empty node `c` under char `ch` of `h`. */
  ghost function Linked<T>(a: Nodes<T>, h: Handle, ch: char, c: Handle): Nodes<T>
    requires h in a
  {
    a[c := Node(ch, None, map[], Some(h), a[h].mode, StorageFor(a[h].mode, ch))]
     [h := a[h].(children := a[h].children[ch := c])]
  }

  /** Linking a fresh node keeps the arena well formed. */
  lemma LinkedWf<T>(a: Nodes<T>, h: Handle, ch: char, c: Handle)
    requires Wf(a) && h in a && ch !in a[h].children && c !in a
    requires forall x :: x in a ==> x < c
    ensures Wf(Linked(a, h, ch, c))
  {
    var b := Linked(a, h, ch, c);
    forall x, k | x in b && k in b[x].children
      ensures b[x].children[k] in b && b[b[x].children[k]].parent == Some(x) && b[b[x].children[k]].ch == k
    {
      if x == h && k == ch {
      } else {
        assert x in a && k in a[x].children && b[x].children[k] == a[x].children[k];
        assert a[x].children[k] != c;
      }
    }
    forall x | x in b && b[x].parent.Some?
      ensures b[x].parent.value in b && b[x].parent.value < x
    {
      if x != c { assert b[x].parent == a[x].parent; }
    }
  }

  /** Linking a fresh node only grows the arena and sets no value. */
  lemma LinkedGrows<T>(a: Nodes<T>, h: Handle, ch: char, c: Handle)
    requires h in a && ch !in a[h].children && c !in a
    ensures Grows(a, Linked(a, h, ch, c)) && ValuesKept(a, Linked(a, h, ch, c), c)
  {
  }

  /** Linking a new empty node `c` under char `ch` of `h`, where there was
      no child: the arena only grows and no value changes. */
  lemma AddChild<T>(a: Nodes<T>, b: Nodes<T>, h: Handle, ch: char, c: Handle, rest: string)
    requires Wf(a) && h in a && ch !in a[h].children && c !in a
    requires forall x :: x in a ==> x < c
    requires b == a[c := Node(ch, None, map[], Some(h), a[h].mode, StorageFor(a[h].mode, ch))]
                   [h := a[h].(children := a[h].children[ch := c])]
    ensures Wf(b) && Grows(a, b) && ValuesKept(a, b, c) && c in b
    ensures b[c].value.None? && b[c].children == map[]
    ensures Matched(b, c, rest) == 0 && Get(b, c, rest).None?
  {
    LinkedWf(a, h, ch, c);
    LinkedGrows(a, h, ch, c);
    assert b == Linked(a, h, ch, c);
    if |rest| > 0 {
      assert FindChild(b, c, rest[0]).None?;
    }
    EmptyNodeGet(b, c, rest);
  }

  /** One level of `put`: from the lookup below child `c` (the found or the
      newly linked child of `h`) to the lookup of `w` below `h`. */
  lemma PutStep<T>(a: Nodes<T>, mid: Nodes<T>, b: Nodes<T>, h: Handle, w: string, c: Handle, created: bool)
    requires Wf(a) && Wf(mid) && Wf(b) && h in a && |w| > 0 && c in mid
    requires Grows(a, mid) && Grows(mid, b)
    requires w[0] in mid[h].children && mid[h].children[w[0]] == c
    requires created ==> w[0] !in a[h].children && c !in a && ValuesKept(a, mid, c)
                         && mid[c].value.None? && mid[c].children == map[]
                         && Matched(mid, c, w[1..]) == 0 && Get(mid, c, w[1..]).None?
    requires !created ==> mid == a
    requires GetNode(b, c, w[1..]).Some? && ValuesKept(mid, b, GetNode(b, c, w[1..]).value)
    ensures Grows(a, b)
    ensures GetNode(b, h, w) == GetNode(b, c, w[1..])
    ensures ValuesKept(a, b, GetNode(b, h, w).value)
    ensures Get(a, h, w) == Get(mid, c, w[1..])
    ensures Matched(a, h, w) == if created then 0 else 1 + Matched(mid, c, w[1..])
    ensures forall u :: u != w ==> Get(b, h, u) == Get(a, h, u)
  {
    GrowsTrans(a, mid, b);
    assert FindChild(b, h, w[0]) == Some(c);
    assert GetNode(b, h, w) == GetNode(b, c, w[1..]);
    PutFrame(a, b, h, w);
  }

  /** The walk `chain` goes up the parent pointers of `a`. */
  ghost predicate ChainUp<T>(a: Nodes<T>, chain: seq<Handle>)
  {
    && (forall i :: 0 <= i < |chain| ==> chain[i] in a)
    && (forall i :: 0 <= i < |chain| - 1 ==> a[chain[i]].parent == Some(chain[i + 1]))
  }

  /** Every node of the walk but the last was detached in `b` and had
      neither a value nor children. */
  ghost predicate Detached<T>(b: Nodes<T>, chain: seq<Handle>)
  {
    forall i :: 0 <= i < |chain| - 1 ==>
      chain[i] in b && b[chain[i]].value.None? && b[chain[i]].children == map[]
  }

  /** Each node of the walk above the first lost exactly the child link
      under the char of the node below it. */
  ghost predicate LinksCut<T>(a: Nodes<T>, b: Nodes<T>, chain: seq<Handle>)
    requires ChainUp(a, chain) && a.Keys == b.Keys
  {
    forall i :: 0 < i < |chain| ==>
      b[chain[i]].children == a[chain[i]].children - {a[chain[i - 1]].ch}
  }

  /** No node off the walk (above its first node) changed its children. */
  ghost predicate OthersKept<T>(a: Nodes<T>, b: Nodes<T>, chain: seq<Handle>)
    requires a.Keys == b.Keys && |chain| >= 1
  {
    forall x :: x in a && x !in chain[1..] ==> b[x].children == a[x].children
  }

  /** Chars, parents, modes and storages are kept; only `t` lost its value. */
  ghost predicate FieldsKept<T>(a: Nodes<T>, b: Nodes<T>, t: Handle)
    requires a.Keys == b.Keys
  {
    && (forall x :: x in a ==> b[x] == a[x].(value := b[x].value, children := b[x].children))
    && (forall x :: x in a ==> b[x].value == if x == t then None else a[x].value)
  }

  /** The shape of the arena `b` while `remove` walks up from the cleared
      node `t` (arena `a` is the one before the call): `chain` is the walk so
      far, along parent pointers, so a node without a parent (a root) can
      only be its last element and is never detached; all of its nodes but
      the last were detached from the next one, and nothing else changed. */
  ghost predicate PruneShape<T>(a: Nodes<T>, b: Nodes<T>, t: Handle, chain: seq<Handle>)
  {
    && Wf(a) && Wf(b) && a.Keys == b.Keys
    && |chain| >= 1 && chain[0] == t
    && ChainUp(a, chain)
    && Detached(b, chain)
    && LinksCut(a, b, chain)
    && OthersKept(a, b, chain)
    && FieldsKept(a, b, t)
  }

  /** What `remove` did: the walk described by `PruneShape`, stopped at a
      root or at the first node that still has a value or a child. */
  ghost predicate Pruned<T>(a: Nodes<T>, b: Nodes<T>, t: Handle, chain: seq<Handle>)
  {
    && PruneShape(a, b, t, chain)
    && (var s := chain[|chain| - 1];
        b[s].parent.None? || b[s].value.Some? || b[s].children != map[])
  }

  /** The handles of the walk strictly decrease (each is a parent). */
  ghost predicate Descending(chain: seq<Handle>)
  {
    forall i, j :: 0 <= i < j < |chain| ==> chain[j] < chain[i]
  }

  /** Extending a descending chain by a handle below its last one keeps it
      descending. */
  lemma DescendingStep(chain: seq<Handle>, p: Handle)
    requires Descending(chain) && |chain| > 0 && p < chain[|chain| - 1]
    ensures Descending(chain + [p])
  {
    forall i, j | 0 <= i < j < |chain + [p]| ensures (chain + [p])[j] < (chain + [p])[i] {
      if j < |chain| { assert (chain + [p])[j] == chain[j]; }
      else if i < |chain| - 1 { assert chain[|chain| - 1] < chain[i]; }
    }
  }

  /** The loop invariant of `remove` started from node `h` with word `w`:
      the walk's shape, that its top below `h` is on the path of `w`, and
      that exactly key `w` lost its value. */
  ghost predicate PruneInv<T>(a: Nodes<T>, b: Nodes<T>, h: Handle, w: string, t: Handle, chain: seq<Handle>)
  {
    && PruneShape(a, b, t, chain)
    && h in a
    && Descending(chain)
    && (h <= chain[|chain| - 1] ==> Reach(a, h, chain[|chain| - 1]))
    && (forall u :: Get(b, h, u) == if u == w then None else Get(a, h, u))
  }

  /** `remove` after `node.put("", null)`: the walk is just the found node. */
  lemma PruneStart<T>(a: Nodes<T>, h: Handle, w: string)
    requires Wf(a) && h in a && GetNode(a, h, w).Some?
    ensures var t := GetNode(a, h, w).value;
      PruneInv(a, a[t := a[t].(value := None)], h, w, t, [t])
  {
    var t := GetNode(a, h, w).value;
    var b := a[t := a[t].(value := None)];
    forall u ensures Get(b, h, u) == if u == w then None else Get(a, h, u) {
      SetValueGet(a, t, None, h, u);
      if GetNode(a, h, u) == Some(t) { GetNodeUnique(a, h, u, w); }
    }
    SetValueGet(a, t, None, h, w);
    assert PruneShape(a, b, t, [t]);
  }

  /** Removing the link under `k` from node `p` keeps the arena well formed. */
  lemma WfCut<T>(N: Nodes<T>, p: Handle, k: char)
    requires Wf(N) && p in N
    ensures Wf(N[p := N[p].(children := N[p].children - {k})])
  {
  }

  /** A parent below the top of a descending walk is not on the walk. */
  lemma ParentOffChain(chain: seq<Handle>, p: Handle)
    requires |chain| >= 1 && Descending(chain) && p < chain[|chain| - 1]
    ensures p !in chain
  {
    forall i | 0 <= i < |chain| ensures chain[i] != p {
      if i < |chain| - 1 { assert chain[|chain| - 1] < chain[i]; }
    }
  }

  lemma ChainUpStep<T>(a: Nodes<T>, chain: seq<Handle>, p: Handle)
    requires ChainUp(a, chain) && |chain| >= 1 && p in a
    requires a[chain[|chain| - 1]].parent == Some(p)
    ensures ChainUp(a, chain + [p])
  {
    var c := chain + [p];
    forall i | 0 <= i < |c| - 1 ensures a[c[i]].parent == Some(c[i + 1]) {
      if i < |chain| - 1 { assert c[i + 1] == chain[i + 1]; }
    }
  }

  lemma DetachedStep<T>(b: Nodes<T>, chain: seq<Handle>, p: Handle, k: char)
    requires Detached(b, chain) && |chain| >= 1 && p in b && p !in chain
    requires var top := chain[|chain| - 1];
      top in b && b[top].value.None? && b[top].children == map[]
    ensures Detached(b[p := b[p].(children := b[p].children - {k})], chain + [p])
  {
    var c := chain + [p];
    forall i | 0 <= i < |c| - 1 ensures c[i] == chain[i] && c[i] != p {
    }
  }

  lemma LinksCutStep<T>(a: Nodes<T>, b: Nodes<T>, chain: seq<Handle>, p: Handle)
    requires ChainUp(a, chain) && a.Keys == b.Keys && |chain| >= 1 && p in a && p !in chain
    requires LinksCut(a, b, chain) && OthersKept(a, b, chain)
    ensures var b' := b[p := b[p].(children := b[p].children - {a[chain[|chain| - 1]].ch})];
      ChainUp(a, chain + [p]) ==> LinksCut(a, b', chain + [p])
  {
    var n := |chain|;
    var b' := b[p := b[p].(children := b[p].children - {a[chain[n - 1]].ch})];
    var c := chain + [p];
    assert p !in chain[1..];
    if ChainUp(a, c) {
      forall i | 0 < i < |c|
        ensures b'[c[i]].children == a[c[i]].children - {a[c[i - 1]].ch}
      {
        if i < n {
          assert c[i] == chain[i] && c[i - 1] == chain[i - 1] && chain[i] != p;
        }
      }
    }
  }

  lemma OthersKeptStep<T>(a: Nodes<T>, b: Nodes<T>, chain: seq<Handle>, p: Handle, k: char)
    requires a.Keys == b.Keys && |chain| >= 1 && p in a
    requires OthersKept(a, b, chain)
    ensures OthersKept(a, b[p := b[p].(children := b[p].children - {k})], chain + [p])
  {
    var c := chain + [p];
    assert c[1..] == chain[1..] + [p];
  }

  lemma FieldsKeptStep<T>(a: Nodes<T>, b: Nodes<T>, t: Handle, p: Handle, k: char)
    requires a.Keys == b.Keys && p in a
    requires FieldsKept(a, b, t)
    ensures FieldsKept(a, b[p := b[p].(children := b[p].children - {k})], t)
  {
  }

  /** The walk's shape after detaching its top `top` (no value, no
      children, parent `p`) from `p`. */
  lemma ShapeStep<T>(a: Nodes<T>, b: Nodes<T>, t: Handle, chain: seq<Handle>)
    requires PruneShape(a, b, t, chain) && Descending(chain)
    requires var top := chain[|chain| - 1];
      b[top].parent.Some? && b[top].value.None? && b[top].children == map[]
    ensures var top := chain[|chain| - 1];
      var p := b[top].parent.value;
      PruneShape(a, b[p := b[p].(children := b[p].children - {b[top].ch})], t, chain + [p])
  {
    var top := chain[|chain| - 1];
    var p := b[top].parent.value;
    var k := b[top].ch;
    assert a[top].parent == Some(p) && a[top].ch == k && p < top;
    ParentOffChain(chain, p);
    WfCut(b, p, k);
    ChainUpStep(a, chain, p);
    DetachedStep(b, chain, p, k);
    LinksCutStep(a, b, chain, p);
    OthersKeptStep(a, b, chain, p, k);
    FieldsKeptStep(a, b, t, p, k);
  }

  /** Detaching the top of the walk from its parent `p` changes no lookup
      from `h`. */
  lemma CutGet<T>(a: Nodes<T>, b: Nodes<T>, h: Handle, t: Handle, chain: seq<Handle>, u: string)
    requires PruneShape(a, b, t, chain) && Descending(chain) && h in a
    requires h <= chain[|chain| - 1] ==> Reach(a, h, chain[|chain| - 1])
    requires var top := chain[|chain| - 1];
      b[top].parent.Some? && b[top].value.None? && b[top].children == map[]
    ensures var top := chain[|chain| - 1];
      var p := b[top].parent.value;
      Get(b[p := b[p].(children := b[p].children - {b[top].ch})], h, u) == Get(b, h, u)
  {
    var top := chain[|chain| - 1];
    var p := b[top].parent.value;
    var k := b[top].ch;
    var b' := b[p := b[p].(children := b[p].children - {k})];
    WfCut(b, p, k);
    if h <= p {
      ReachParent(a, h, top);
      ParentOffChain(chain, p);
      assert p !in chain[1..];
      assert k in b[p].children && b[p].children[k] == top;
      DetachGet(b, p, k, h, u);
    } else {
      AgreeAboveGet(b, b', h, h, u);
    }
  }

  /** One round of the pruning loop: the top of the walk has no value, no
      children and a parent; it is detached from that parent, which becomes
      the new top. */
  lemma PruneStep<T>(a: Nodes<T>, b: Nodes<T>, h: Handle, w: string, t: Handle, chain: seq<Handle>)
    requires PruneInv(a, b, h, w, t, chain)
    requires var top := chain[|chain| - 1];
      b[top].parent.Some? && b[top].value.None? && b[top].children == map[]
    ensures var top := chain[|chain| - 1];
      var p := b[top].parent.value;
      && p in b && p < top
      && PruneInv(a, b[p := b[p].(children := b[p].children - {b[top].ch})], h, w, t, chain + [p])
  {
    var top := chain[|chain| - 1];
    var p := b[top].parent.value;
    var k := b[top].ch;
    var b' := b[p := b[p].(children := b[p].children - {k})];
    ShapeStep(a, b, t, chain);
    assert a[top].parent == Some(p);
    DescendingStep(chain, p);
    if h <= p {
      ReachParent(a, h, top);
    }
    forall u ensures Get(b', h, u) == Get(b, h, u) {
      CutGet(a, b, h, t, chain, u);
    }
  }


  // ---------------------------------------------------------------------
  // The arena: allocation, put and remove
  // ---------------------------------------------------------------------

  /** The node store shared by a map and its views. */
  class Arena<T> {
    var nodes: Nodes<T>
    var next: Handle

    ghost predicate Valid()
      reads this
    {
      Wf(nodes) && forall h :: h in nodes ==> h < next
    }

    constructor ()
      ensures Valid() && nodes == map[]
    {
      nodes := map[];
      next := 0;
    }

    /** The `TrieNode(key, value, mode, parent)` constructor: a fresh node
        without children whose container is chosen by `StorageFor`. */
    method NewNode(ch: char, value: Option<T>, mode: Mode, parent: Option<Handle>) returns (h: Handle)
      requires Valid() && (parent.Some? ==> parent.value in nodes)
      modifies this
      ensures Valid()
      ensures h == old(next) && next == old(next) + 1 && h !in old(nodes)
      ensures nodes == old(nodes)[h := Node(ch, value, map[], parent, mode, StorageFor(mode, ch))]
    {
      h := next;
      nodes := nodes[h := Node(ch, value, map[], parent, mode, StorageFor(mode, ch))];
      next := next + 1;
    }

    /** `put(word, value)` on node `h`: stores `v` at `w`, creating one node
        per missing char of `w` (each in this node's mode), and returns the
        previous value at `w`. */
    method Put(h: Handle, w: string, v: Option<T>) returns (prev: Option<T>)
      requires Valid() && h in nodes
      modifies this
      ensures Valid() && old(nodes).Keys <= nodes.Keys
      ensures prev == old(Get(nodes, h, w))
      ensures GetNode(nodes, h, w).Some? && Get(nodes, h, w) == v
      ensures forall u :: u != w ==> Get(nodes, h, u) == old(Get(nodes, h, u))
      // structure: only additions, exactly one new node per missing char
      ensures Grows(old(nodes), nodes)
      ensures next == old(next) + |w| - old(Matched(nodes, h, w))
      ensures |nodes| == old(|nodes|) + |w| - old(Matched(nodes, h, w))
      ensures ValuesKept(old(nodes), nodes, GetNode(nodes, h, w).value)
      decreases |w|
    {
      if |w| == 0 {
        prev := nodes[h].value;
        SetOwnValue(nodes, h, v);
        nodes := nodes[h := nodes[h].(value := v)];
      } else {
        ghost var before, next0 := nodes, next;
        var ch := w[0];
        var child := FindChild(nodes, h, ch);
        var c: Handle;
        if child.None? {
          c := NewNode(ch, None, nodes[h].mode, Some(h));
          nodes := nodes[h := nodes[h].(children := nodes[h].children[ch := c])];
          AddChild(before, nodes, h, ch, c, w[1..]);
          assert |nodes| == |before| + 1 && next == next0 + 1;
        } else {
          c := child.value;
        }
        ghost var mid, next1 := nodes, next;
        assert |mid| == |before| + next1 - next0;
        prev := Put(c, w[1..], v);
        PutStep(before, mid, nodes, h, w, c, child.None?);
        assert prev == Get(before, h, w);
        assert next == next0 + |w| - Matched(before, h, w);
        assert Get(nodes, h, w) == Get(nodes, c, w[1..]);
      }
    }

    /** `remove(word)` on node `h`: when `w` has a node, clears its value and
        then walks up the parent pointers, detaching each node that has
        neither a value nor children, until a root or a node with a value or
        a child; returns the previous value. `chain` is that walk. */
    method Remove(h: Handle, w: string) returns (prev: Option<T>, ghost chain: seq<Handle>)
      requires Valid() && h in nodes
      modifies this
      ensures Valid() && next == old(next) && nodes.Keys == old(nodes).Keys
      ensures prev == old(Get(nodes, h, w))
      ensures old(GetNode(nodes, h, w)).None? ==> nodes == old(nodes) && chain == []
      ensures Get(nodes, h, w).None?
      ensures forall u :: u != w ==> Get(nodes, h, u) == old(Get(nodes, h, u))
      ensures old(GetNode(nodes, h, w)).Some? ==>
                Pruned(old(nodes), nodes, old(GetNode(nodes, h, w)).value, chain)
    {
      var found := GetNode(nodes, h, w);
      if found.None? {
        return None, [];
      }
      var node := found.value;
      ghost var t := node;
      prev := nodes[node].value;
      // node.put("", null)
      PruneStart(nodes, h, w);
      nodes := nodes[node := nodes[node].(value := None)];
      chain := [node];
      while nodes[node].parent.Some? && nodes[node].children == map[]
        invariant Valid() && next == old(next)
        invariant PruneInv(old(nodes), nodes, h, w, t, chain) && chain[|chain| - 1] == node
        decreases node
      {
        var child := node;
        if nodes[child].value.Some? {
          break;
        }
        PruneStep(old(nodes), nodes, h, w, t, chain);
        node := nodes[node].parent.value;
        nodes := nodes[node := nodes[node].(children := nodes[node].children - {nodes[child].ch})];
        chain := chain + [node];
      }
    }
  }

  // ---------------------------------------------------------------------
  // Depth-first iteration (MyNodesIterator, MyKeysIterator)
  // ---------------------------------------------------------------------

  /** A child of a node reachable from `a` is reachable from `a`. */
  lemma ChildReach<T>(N: Nodes<T>, a: Handle, s: Handle, k: char)
    requires Reach(N, a, s) && s in N && k in N[s].children
    ensures Reach(N, a, N[s].children[k])
  {
    var u :| GetNode(N, a, u) == Some(s);
    GetNodeAppend(N, a, u, [k]);
    assert GetNode(N, s, [k]) == Some(N[s].children[k]);
  }

  /** A node reachable from `s`, other than `s`, is reachable from one of
      `s`'s children. */
  lemma BelowChild<T>(N: Nodes<T>, s: Handle, n: Handle)
    requires Reach(N, s, n) && n != s
    ensures exists k :: k in N[s].children && Reach(N, N[s].children[k], n)
  {
    var u :| GetNode(N, s, u) == Some(n);
    assert |u| > 0;
    var c := FindChild(N, s, u[0]).value;
    assert GetNode(N, c, u[1..]) == Some(n);
  }

  /** Nodes reachable from `a` are not older than `a`. */
  lemma ReachOrder<T>(N: Nodes<T>, a: Handle, n: Handle)
    requires Reach(N, a, n)
    ensures n in N && a <= n
  {
    var u :| GetNode(N, a, u) == Some(n);
    GetNodeOrder(N, a, u);
  }

  /** Node `n` is below `start` and not yet popped. */
  ghost predicate Pending<T>(N: Nodes<T>, start: Handle, visited: set<Handle>, n: Handle)
  {
    Reach(N, start, n) && n !in visited
  }

  /** The invariant of the depth-first walk from `start` with pending
      nodes `stack` and popped nodes `visited`: the pending nodes are
      distinct, unvisited and reachable; popped nodes are reachable; every
      pending or popped node other than `start` was pushed when its parent
      was popped; and every reachable node not yet popped lies below some
      pending node. */
  ghost predicate DfsInv<T>(N: Nodes<T>, start: Handle, stack: seq<Handle>, visited: set<Handle>)
  {
    && Wf(N) && start in N && visited <= N.Keys
    && Distinct(stack)
    && (forall i :: 0 <= i < |stack| ==> stack[i] in N && Reach(N, start, stack[i]) && stack[i] !in visited)
    && (forall v :: v in visited ==> Reach(N, start, v))
    && (forall i :: 0 <= i < |stack| && stack[i] != start ==>
          N[stack[i]].parent.Some? && N[stack[i]].parent.value in visited)
    && (forall v {:trigger N[v].parent} :: v in visited && v != start ==>
          N[v].parent.Some? && N[v].parent.value in visited)
    && (forall n :: Pending(N, start, visited, n) ==>
          exists i :: 0 <= i < |stack| && Reach(N, stack[i], n))
  }

  lemma DfsInit<T>(N: Nodes<T>, start: Handle)
    requires Wf(N) && start in N
    ensures DfsInv(N, start, [start], {})
  {
    GetNodeEmpty(N, start);
    forall n | Pending(N, start, {}, n) ensures exists i :: 0 <= i < 1 && Reach(N, [start][i], n) {
      assert [start][0] == start;
    }
  }

  /** With the stack empty, every node below `start` has been popped. */
  lemma DfsDone<T>(N: Nodes<T>, start: Handle, visited: set<Handle>)
    requires DfsInv(N, start, [], visited)
    ensures forall n :: Reach(N, start, n) ==> n in visited
  {
    forall n | Reach(N, start, n) ensures n in visited {
      if n !in visited { assert Pending(N, start, visited, n); }
    }
  }

  /** The children of `s` are not yet pushed or popped when `s` is popped. */
  lemma ChildrenNew<T>(N: Nodes<T>, start: Handle, stack: seq<Handle>, visited: set<Handle>, k: char)
    requires DfsInv(N, start, stack, visited) && |stack| > 0
    requires var s := stack[|stack| - 1]; k in N[s].children
    ensures var s := stack[|stack| - 1]; var c := N[s].children[k];
      c != start && c !in visited && c !in stack && Reach(N, start, c)
  {
    var s := stack[|stack| - 1];
    var c := N[s].children[k];
    ChildReach(N, start, s, k);
    ReachOrder(N, start, s);
    assert N[c].parent == Some(s) && s < c;
    forall i | 0 <= i < |stack| ensures stack[i] != c {
      if stack[i] != start {
        assert N[stack[i]].parent.value in visited;
      }
    }
  }

  /** After popping `s` and pushing its children `kids`, the stack still
      holds distinct, reachable, unvisited nodes whose parents are visited. */
  lemma DfsStepStack<T>(N: Nodes<T>, start: Handle, stack: seq<Handle>, visited: set<Handle>, kids: seq<Handle>)
    requires DfsInv(N, start, stack, visited) && |stack| > 0
    requires var s := stack[|stack| - 1];
      Distinct(kids) && forall c :: c in kids <==> c in N[s].children.Values
    ensures var s := stack[|stack| - 1]; var st := stack[..|stack| - 1] + kids;
      && Distinct(st)
      && (forall i :: 0 <= i < |st| ==> st[i] in N && Reach(N, start, st[i]) && st[i] !in visited + {s})
      && (forall i :: 0 <= i < |st| && st[i] != start ==>
            N[st[i]].parent.Some? && N[st[i]].parent.value in visited + {s})
  {
    var s := stack[|stack| - 1];
    var rest := stack[..|stack| - 1];
    var st := rest + kids;
    var V := visited + {s};
    forall j | 0 <= j < |kids|
      ensures kids[j] in N && Reach(N, start, kids[j]) && kids[j] !in V && kids[j] !in rest
      ensures kids[j] != start && N[kids[j]].parent == Some(s)
    {
      assert kids[j] in N[s].children.Values;
      var k :| k in N[s].children && N[s].children[k] == kids[j];
      ChildrenNew(N, start, stack, visited, k);
    }
    forall i, j | 0 <= i < j < |st| ensures st[i] != st[j] {
      if j < |rest| {
        assert st[i] == stack[i] && st[j] == stack[j];
      } else if i >= |rest| {
        assert st[i] == kids[i - |rest|] && st[j] == kids[j - |rest|];
      } else {
        assert st[i] == rest[i] && st[j] == kids[j - |rest|];
      }
    }
    forall i | 0 <= i < |st|
      ensures st[i] in N && Reach(N, start, st[i]) && st[i] !in V
      ensures st[i] != start ==> N[st[i]].parent.Some? && N[st[i]].parent.value in V
    {
      if i < |rest| {
        assert st[i] == stack[i];
        assert stack[i] != s;
      } else {
        assert st[i] == kids[i - |rest|];
      }
    }
  }

  /** After popping `s` and pushing its children `kids`, every reachable node
      not yet visited still lies below some node on the stack. */
  lemma DfsStepCover<T>(N: Nodes<T>, start: Handle, stack: seq<Handle>, visited: set<Handle>, kids: seq<Handle>)
    requires Wf(N) && |stack| > 0 && stack[|stack| - 1] in N
    requires forall n :: Pending(N, start, visited, n) ==>
               exists i :: 0 <= i < |stack| && Reach(N, stack[i], n)
    requires var s := stack[|stack| - 1];
      forall c :: c in kids <==> c in N[s].children.Values
    ensures var s := stack[|stack| - 1]; var st := stack[..|stack| - 1] + kids;
      forall n :: Pending(N, start, visited + {s}, n) ==>
        exists i :: 0 <= i < |st| && Reach(N, st[i], n)
  {
    var s := stack[|stack| - 1];
    var rest := stack[..|stack| - 1];
    var st := rest + kids;
    var V := visited + {s};
    forall n | Pending(N, start, V, n)
      ensures exists i :: 0 <= i < |st| && Reach(N, st[i], n)
    {
      assert Pending(N, start, visited, n);
      var i :| 0 <= i < |stack| && Reach(N, stack[i], n);
      if i < |rest| {
        assert st[i] == stack[i];
      } else {
        BelowChild(N, s, n);
        var k :| k in N[s].children && Reach(N, N[s].children[k], n);
        var c := N[s].children[k];
        assert c in kids;
        var j :| 0 <= j < |kids| && kids[j] == c;
        assert st[|rest| + j] == c;
      }
    }
  }

  /** Popping the top `s` of the stack and pushing its children `kids` (in
      any order) keeps the walk's invariant. */
  lemma DfsStep<T>(N: Nodes<T>, start: Handle, stack: seq<Handle>, visited: set<Handle>, kids: seq<Handle>)
    requires DfsInv(N, start, stack, visited) && |stack| > 0
    requires var s := stack[|stack| - 1];
      Distinct(kids) && forall c :: c in kids <==> c in N[s].children.Values
    ensures var s := stack[|stack| - 1];
      DfsInv(N, start, stack[..|stack| - 1] + kids, visited + {s})
  {
    DfsStepStack(N, start, stack, visited, kids);
    DfsStepCover(N, start, stack, visited, kids);
    var s := stack[|stack| - 1];
    assert s in N && Reach(N, start, s);
    assert s != start ==> N[s].parent.Some? && N[s].parent.value in visited;
  }

  /** The children of `h`, in the (unspecified) order of its container's
      `values()`. */
  method Children<T>(N: Nodes<T>, h: Handle) returns (kids: seq<Handle>)
    requires Wf(N) && h in N
    ensures Distinct(kids)
    ensures forall c :: c in kids <==> c in N[h].children.Values
    ensures forall c :: c in kids ==> c in N
  {
    kids := [];
    var rest := N[h].children.Values;
    while rest != {}
      invariant rest <= N[h].children.Values
      invariant Distinct(kids)
      invariant forall c :: c in kids <==> c in N[h].children.Values && c !in rest
      decreases rest
    {
      var c :| c in rest;
      kids := kids + [c];
      rest := rest - {c};
    }
  }

  /** The state of the node walk: the walk's invariant, the nodes handed
      out so far (each once), and the pending node `next`; together they are
      exactly the visited nodes that hold a value. */
  ghost predicate NodesWalk<T>(N: Nodes<T>, start: Handle, stack: seq<Handle>, visited: set<Handle>,
                               yielded: seq<Handle>, next: Option<Handle>)
  {
    && DfsInv(N, start, stack, visited)
    && Distinct(yielded)
    && (next.None? ==> stack == [] && forall n :: Reach(N, start, n) ==> n in visited)
    && (next.Some? ==> next.value !in yielded)
    && (forall n :: n in yielded || next == Some(n) <==> n in visited && N[n].value.Some?)
  }

  /** Where `findNext` stops: on a popped node with a value, or with the
      stack empty. */
  lemma NodesFound<T>(N: Nodes<T>, start: Handle, stack: seq<Handle>, visited: set<Handle>,
                      yielded: seq<Handle>, trie: Handle)
    requires DfsInv(N, start, stack, visited) && Distinct(yielded)
    requires trie in visited && trie !in yielded
    requires forall n :: n in visited && N[n].value.Some? <==>
               n in yielded || (n == trie && N[trie].value.Some?)
    requires stack != [] ==> N[trie].value.Some?
    ensures NodesWalk(N, start, stack, visited, yielded, if N[trie].value.None? then None else Some(trie))
  {
    if stack == [] { DfsDone(N, start, visited); }
  }

  /** One pop of `findNext`: the top node leaves the stack and its
      children (in their container's order) are pushed in its place; the
      walk's invariant holds with the popped node counted as visited. */
  method PopNode<T>(N: Nodes<T>, start: Handle, stack: seq<Handle>, ghost visited: set<Handle>)
    returns (trie: Handle, stack': seq<Handle>)
    requires DfsInv(N, start, stack, visited) && stack != []
    ensures trie == stack[|stack| - 1] && trie in N && trie !in visited
    ensures |stack'| >= |stack| - 1 && stack'[..|stack| - 1] == stack[..|stack| - 1]
    ensures forall c :: c in stack'[|stack| - 1..] <==> c in N[trie].children.Values
    ensures DfsInv(N, start, stack', visited + {trie})
  {
    trie := stack[|stack| - 1];
    var kids := Children(N, trie);
    DfsStep(N, start, stack, visited, kids);
    stack' := stack[..|stack| - 1] + kids;
    assert stack'[|stack| - 1..] == kids;
  }

  /** The loop of `findNext` on a non-empty stack: pops until it pops a node
      with a value (the result) or the stack runs out (None). */
  method FindValued<T>(N: Nodes<T>, start: Handle, stack: seq<Handle>, ghost visited: set<Handle>,
                       ghost yielded: seq<Handle>)
    returns (next: Option<Handle>, stack': seq<Handle>, ghost visited': set<Handle>)
    requires DfsInv(N, start, stack, visited) && Distinct(yielded) && stack != []
    requires forall n :: n in yielded <==> n in visited && N[n].value.Some?
    ensures NodesWalk(N, start, stack', visited', yielded, next) && visited < visited'
  {
    var trie;
    trie, stack' := PopNode(N, start, stack, visited);
    visited' := visited + {trie};
    while stack' != [] && N[trie].value.None?
      invariant DfsInv(N, start, stack', visited')
      invariant trie in visited' && trie !in yielded && visited < visited'
      invariant forall n :: n in visited' && N[n].value.Some? <==>
                  n in yielded || (n == trie && N[trie].value.Some?)
      decreases N.Keys - visited'
    {
      trie, stack' := PopNode(N, start, stack', visited');
      visited' := visited' + {trie};
    }
    NodesFound(N, start, stack', visited', yielded, trie);
    next := if N[trie].value.None? then None else Some(trie);
  }

  /** `MyNodesIterator`: yields, in depth-first order, the nodes below
      `start` (itself included) that hold a value. It walks the arena as it
      was when the iterator was made. */
  class NodesIterator<T> {
    const nodes: Nodes<T>
    const start: Handle
    var stack: seq<Handle>
    var next: Option<Handle>
    ghost var visited: set<Handle>
    ghost var yielded: seq<Handle>

    ghost predicate Valid()
      reads this
    {
      NodesWalk(nodes, start, stack, visited, yielded, next)
    }

    /** The nodes not yet popped: shrinks with each step. */
    ghost function Remaining(): set<Handle>
      reads this
    {
      nodes.Keys - visited
    }

    constructor(N: Nodes<T>, h: Handle)
      requires Wf(N) && h in N
      ensures Valid() && nodes == N && start == h && yielded == []
    {
      nodes := N;
      start := h;
      stack := [h];
      next := None;
      visited := {};
      yielded := [];
      new;
      DfsInit(N, h);
      FindNext();
    }

    /** `findNext`: pops nodes, pushing each one's children, until it pops
        one with a value or the stack runs out. */
    method FindNext()
      requires DfsInv(nodes, start, stack, visited) && Distinct(yielded)
      requires forall n :: n in yielded <==> n in visited && nodes[n].value.Some?
      modifies this
      ensures Valid() && yielded == old(yielded) && old(visited) <= visited
      ensures old(stack) != [] ==> old(visited) < visited
      ensures old(stack) == [] ==> next.None? && visited == old(visited)
    {
      if stack == [] {
        DfsDone(nodes, start, visited);
        next := None;
        return;
      }
      var nx, st, vs := FindValued(nodes, start, stack, visited, yielded);
      stack, visited, next := st, vs, nx;
    }

    /** `hasNext`. No node is yielded twice, only value-bearing nodes below
        `start` are, and once it is false every one of them has been. */
    function HasNext(): (b: bool)
      reads this
      ensures Valid() ==> Distinct(yielded)
      ensures Valid() ==> forall n :: n in yielded ==> Reach(nodes, start, n) && nodes[n].value.Some?
      ensures Valid() && !b ==> forall n :: Reach(nodes, start, n) && nodes[n].value.Some? ==> n in yielded
    {
      next.Some?
    }

    /** `next`: hands out the pending node (None when there is none) and
        looks for the one after it. */
    method Next() returns (r: Option<Handle>)
      requires Valid()
      modifies this
      ensures Valid() && r == old(next)
      ensures yielded == if r.Some? then old(yielded) + [r.value] else old(yielded)
      ensures Remaining() <= old(Remaining())
      ensures r.Some? ==> Remaining() < old(Remaining()) || next.None?
      ensures r.None? ==> next.None?
    {
      r := next;
      if r.Some? {
        yielded := yielded + [r.value];
      }
      FindNext();
    }
  }

  /** A pending entry of the key iterator: a path from the start node and
      the node it leads to. */
  datatype Frame = Frame(path: string, node: Handle)

  function Handles(fs: seq<Frame>): (hs: seq<Handle>)
    ensures |hs| == |fs| && forall i :: 0 <= i < |fs| ==> hs[i] == fs[i].node
  {
    seq(|fs|, i requires 0 <= i < |fs| => fs[i].node)
  }

  /** The frames pushed for the children `kids` of the node at `path`:
      each child's path is `path` followed by its char. */
  function Extend<T>(N: Nodes<T>, path: string, kids: seq<Handle>): (fs: seq<Frame>)
    requires forall c :: c in kids ==> c in N
    ensures Handles(fs) == kids
    ensures forall i :: 0 <= i < |kids| ==> fs[i].path == path + [N[kids[i]].ch]
  {
    seq(|kids|, i requires 0 <= i < |kids| => Frame(path + [N[kids[i]].ch], kids[i]))
  }

  /** Every frame's path leads from `start` to its node. */
  ghost predicate PathsHold<T>(N: Nodes<T>, start: Handle, stack: seq<Frame>)
    requires Wf(N) && start in N
  {
    forall i :: 0 <= i < |stack| ==> GetNode(N, start, stack[i].path) == Some(stack[i].node)
  }

  /** Popping a frame and pushing frames for its children keeps every path
      right. */
  lemma PathsStep<T>(N: Nodes<T>, start: Handle, stack: seq<Frame>, kids: seq<Handle>)
    requires Wf(N) && start in N && |stack| > 0 && PathsHold(N, start, stack)
    requires var s := stack[|stack| - 1].node;
      s in N && forall c :: c in kids <==> c in N[s].children.Values
    requires forall c :: c in kids ==> c in N
    ensures var top := stack[|stack| - 1];
      PathsHold(N, start, stack[..|stack| - 1] + Extend(N, top.path, kids))
  {
    var top := stack[|stack| - 1];
    var ext := Extend(N, top.path, kids);
    var st := stack[..|stack| - 1] + ext;
    forall i | 0 <= i < |st| ensures GetNode(N, start, st[i].path) == Some(st[i].node) {
      if i < |stack| - 1 {
        assert st[i] == stack[i];
      } else {
        var j := i - (|stack| - 1);
        assert st[i] == ext[j];
        var c := kids[j];
        assert c in kids && c in N[top.node].children.Values;
        var k :| k in N[top.node].children && N[top.node].children[k] == c;
        assert N[c].ch == k;
        GetNodeAppend(N, start, top.path, [k]);
        assert GetNode(N, top.node, [k]) == Some(c);
      }
    }
  }

  /** The state of the key walk: the node walk's invariant on the stacked
      nodes, every stacked path leading to its node, and the paths handed
      out so far (each once) plus the pending one being exactly the paths
      to visited nodes that hold a value. */
  ghost predicate KeysWalk<T>(N: Nodes<T>, start: Handle, stack: seq<Frame>, visited: set<Handle>,
                              yielded: seq<string>, next: Option<string>)
  {
    && DfsInv(N, start, Handles(stack), visited)
    && PathsHold(N, start, stack)
    && Distinct(yielded)
    && (next.None? ==> stack == [] && forall n :: Reach(N, start, n) ==> n in visited)
    && (next.Some? ==> next.value !in yielded)
    && (forall u :: u in yielded || next == Some(u) <==>
          GetNode(N, start, u).Some? && GetNode(N, start, u).value in visited
          && Get(N, start, u).Some?)
  }

  /** One pop of the key walk: the top frame leaves the stack, frames for
      its node's children (each path extended by the child's char) are
      pushed, and its node counts as visited. The popped path is the only
      one leading to the popped node. */
  method PopFrame<T>(N: Nodes<T>, start: Handle, stack: seq<Frame>, ghost visited: set<Handle>)
    returns (top: Frame, stack': seq<Frame>)
    requires DfsInv(N, start, Handles(stack), visited) && PathsHold(N, start, stack) && stack != []
    ensures top == stack[|stack| - 1] && top.node !in visited
    ensures |stack'| >= |stack| - 1 && stack'[..|stack| - 1] == stack[..|stack| - 1]
    ensures DfsInv(N, start, Handles(stack'), visited + {top.node}) && PathsHold(N, start, stack')
    ensures GetNode(N, start, top.path) == Some(top.node)
    ensures forall u :: GetNode(N, start, u) == Some(top.node) ==> u == top.path
  {
    top := stack[|stack| - 1];
    var kids := Children(N, top.node);
    FramePush(N, start, stack, visited, kids);
    stack' := stack[..|stack| - 1] + Extend(N, top.path, kids);
    PathUnique(N, start, top.path, top.node);
  }

  /** Popping the top frame and pushing frames for its node's children
      keeps the walk invariant and the path invariant. */
  lemma FramePush<T>(N: Nodes<T>, start: Handle, stack: seq<Frame>, visited: set<Handle>, kids: seq<Handle>)
    requires DfsInv(N, start, Handles(stack), visited) && PathsHold(N, start, stack) && stack != []
    requires var s := stack[|stack| - 1].node;
      s in N && Distinct(kids) && (forall c :: c in kids <==> c in N[s].children.Values)
      && (forall c :: c in kids ==> c in N)
    ensures var top := stack[|stack| - 1]; var st := stack[..|stack| - 1] + Extend(N, top.path, kids);
      && DfsInv(N, start, Handles(st), visited + {top.node}) && PathsHold(N, start, st)
      && top.node !in visited && GetNode(N, start, top.path) == Some(top.node)
  {
    var top := stack[|stack| - 1];
    var hs := Handles(stack);
    assert hs[|hs| - 1] == top.node;
    DfsStep(N, start, hs, visited, kids);
    PathsStep(N, start, stack, kids);
    var st := stack[..|stack| - 1] + Extend(N, top.path, kids);
    assert Handles(st) == hs[..|hs| - 1] + kids;
  }

  /** A path leading to node `n` from `start` is the only one. */
  lemma PathUnique<T>(N: Nodes<T>, start: Handle, path: string, n: Handle)
    requires Wf(N) && start in N && GetNode(N, start, path) == Some(n)
    ensures forall u :: GetNode(N, start, u) == Some(n) ==> u == path
  {
    forall u | GetNode(N, start, u) == Some(n) ensures u == path {
      GetNodeUnique(N, start, u, path);
    }
  }

  /** Where the key walk's `findNext` stops: on a popped frame whose node
      has a value, or with the stack empty. */
  lemma FramesFound<T>(N: Nodes<T>, start: Handle, stack: seq<Frame>, visited: set<Handle>,
                       yielded: seq<string>, top: Frame)
    requires DfsInv(N, start, Handles(stack), visited) && PathsHold(N, start, stack) && Distinct(yielded)
    requires top.node in visited && GetNode(N, start, top.path) == Some(top.node) && top.path !in yielded
    requires forall u ::
               (GetNode(N, start, u).Some? && GetNode(N, start, u).value in visited
                && Get(N, start, u).Some?) <==>
               u in yielded || (u == top.path && N[top.node].value.Some?)
    requires stack != [] ==> N[top.node].value.Some?
    ensures KeysWalk(N, start, stack, visited, yielded,
                     if N[top.node].value.None? then None else Some(top.path))
  {
    if stack == [] { DfsDone(N, start, visited); }
  }

  /** The loop of the key walk's `findNext` on a non-empty stack. */
  method FindPath<T>(N: Nodes<T>, start: Handle, stack: seq<Frame>, ghost visited: set<Handle>,
                     ghost yielded: seq<string>)
    returns (next: Option<string>, stack': seq<Frame>, ghost visited': set<Handle>)
    requires DfsInv(N, start, Handles(stack), visited) && PathsHold(N, start, stack) && stack != []
    requires Distinct(yielded)
    requires forall u :: u in yielded <==>
               GetNode(N, start, u).Some? && GetNode(N, start, u).value in visited
               && Get(N, start, u).Some?
    ensures KeysWalk(N, start, stack', visited', yielded, next) && visited < visited'
  {
    var top;
    top, stack' := PopFrame(N, start, stack, visited);
    visited' := visited + {top.node};
    while stack' != [] && N[top.node].value.None?
      invariant DfsInv(N, start, Handles(stack'), visited') && PathsHold(N, start, stack')
      invariant top.node in visited' && GetNode(N, start, top.path) == Some(top.node)
      invariant top.path !in yielded && visited < visited'
      invariant forall u ::
                  (GetNode(N, start, u).Some? && GetNode(N, start, u).value in visited'
                   && Get(N, start, u).Some?) <==>
                  u in yielded || (u == top.path && N[top.node].value.Some?)
      decreases N.Keys - visited'
    {
      top, stack' := PopFrame(N, start, stack', visited');
      visited' := visited' + {top.node};
    }
    FramesFound(N, start, stack', visited', yielded, top);
    next := if N[top.node].value.None? then None else Some(top.path);
  }

  /** `MyKeysIterator`: yields, in depth-first order, the paths from
      `start` to the nodes below it that hold a value (the start node's own
      char excluded, so its own value gives ""). */
  class KeysIterator<T> {
    const nodes: Nodes<T>
    const start: Handle
    var stack: seq<Frame>
    var next: Option<string>
    ghost var visited: set<Handle>
    ghost var yielded: seq<string>

    ghost predicate Valid()
      reads this
    {
      KeysWalk(nodes, start, stack, visited, yielded, next)
    }

    ghost function Remaining(): set<Handle>
      reads this
    {
      nodes.Keys - visited
    }

    constructor(N: Nodes<T>, h: Handle)
      requires Wf(N) && h in N
      ensures Valid() && nodes == N && start == h && yielded == []
    {
      nodes := N;
      start := h;
      stack := [Frame([], h)];
      next := None;
      visited := {};
      yielded := [];
      new;
      DfsInit(N, h);
      assert Handles(stack) == [h];
      FindNext();
    }

    /** `findNext`, carrying each node's path alongside it. */
    method FindNext()
      requires DfsInv(nodes, start, Handles(stack), visited) && PathsHold(nodes, start, stack)
      requires Distinct(yielded)
      requires forall u :: u in yielded <==>
                 GetNode(nodes, start, u).Some? && GetNode(nodes, start, u).value in visited
                 && Get(nodes, start, u).Some?
      modifies this
      ensures Valid() && yielded == old(yielded) && old(visited) <= visited
      ensures old(stack) != [] ==> old(visited) < visited
      ensures old(stack) == [] ==> next.None? && visited == old(visited)
    {
      if stack == [] {
        DfsDone(nodes, start, visited);
        next := None;
        return;
      }
      var nx, st, vs := FindPath(nodes, start, stack, visited, yielded);
      stack, visited, next := st, vs, nx;
    }

    /** `hasNext`. No path is yielded twice, only paths below `start` that
        hold a value are, and once it is false every one of them has been. */
    function HasNext(): (b: bool)
      reads this
      ensures Valid() ==> Distinct(yielded)
      ensures Valid() ==> forall u :: u in yielded ==> Get(nodes, start, u).Some?
      ensures Valid() && !b ==> forall u :: Get(nodes, start, u).Some? ==> u in yielded
    {
      next.Some?
    }

    method Next() returns (r: Option<string>)
      requires Valid()
      modifies this
      ensures Valid() && r == old(next)
      ensures yielded == if r.Some? then old(yielded) + [r.value] else old(yielded)
      ensures Remaining() <= old(Remaining())
      ensures r.Some? ==> Remaining() < old(Remaining()) || next.None?
      ensures r.None? ==> next.None?
    {
      r := next;
      if r.Some? {
        yielded := yielded + [r.value];
      }
      FindNext();
    }
  }
}
