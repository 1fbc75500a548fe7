/**
 * What the locator and the mutators of art.go do to the keys a tree
 * stores, read through `Nodes.Get`: `find` stops where `Get` would, every
 * mutator stores the new value under the key and nothing else, and so
 * `Insert` followed by `Lookup` answers the inserted value while every
 * other key keeps its own.
 */
module ArtProofs {
  import opened Types
  import E = NodeEdges
  import opened Nodes
  import opened ArtSpec

  /** What a child slot stores under `x`, the part of a key after the edge byte. */
  ghost function Below<V>(c: Option<Node<V>>, x: seq<byte>): Option<V>
    requires c.Some? ==> ValidNode(c.value)
  {
    match c
    case None => None
    case Some(m) => if m.prefix <= x then Get(m, x[|m.prefix|..]) else None
  }

  /** A non-empty key is read in the child slot of its first byte. */
  lemma GetBelow<V>(n: Node<V>, k: seq<byte>)
    requires ValidNode(n) && k != []
    ensures E.Shaped(n.edges)
    ensures Next(n, k[0]).Some? ==> ValidNode(Next(n, k[0]).value)
    ensures Get(n, k) == Below(Next(n, k[0]), k[1..])
  {
    ChildValid(n, k[0]);
  }

  /** `np` is the valid node `n` with `v` stored under `rel` and nothing else changed. */
  ghost predicate Updated<V>(np: Node<V>, n: Node<V>, rel: seq<byte>, v: V)
    requires ValidNode(n)
  {
    && ValidNode(np) && np.prefix == n.prefix && np.edges.ntype >= n.edges.ntype
    && forall k {:trigger Get(np, k)} :: Get(np, k) == if k == rel then Some(v) else Get(n, k)
  }

  /**
   * A node over the same edge set as a valid node, with a prefix free of
   * byte 0, is valid and stores the same below it; only its own value may
   * differ.
   */
  lemma SameEdges<V>(c: Node<V>, m: Node<V>)
    requires ValidNode(c) && m.edges == c.edges
    requires forall i :: 0 <= i < |m.prefix| ==> m.prefix[i] != 0
    ensures ValidNode(m)
    ensures forall y :: Get(m, y) == if y == [] then m.value else Get(c, y)
  {
    forall b: byte | E.Next(m.edges, b).Some?
      ensures ValidNode(E.Next(m.edges, b).value)
    {
      ChildValid(c, b);
    }
    forall y | y != []
      ensures Get(m, y) == Get(c, y)
    {
      GetBelow(m, y);
      GetBelow(c, y);
    }
  }

  /** A fresh leaf stores its value under its prefix and nothing else. */
  lemma LeafBelow<V>(prefix: seq<byte>, v: V)
    requires forall i :: 0 <= i < |prefix| ==> prefix[i] != 0
    ensures ValidNode(NewNode(E.Node4, prefix, Some(v)))
    ensures forall x :: Below(Some(NewNode(E.Node4, prefix, Some(v))), x) == if x == prefix then Some(v) else None
  {
    NewNodeEmpty(E.Node4, prefix, Some(v));
    var leaf := NewNode(E.Node4, prefix, Some(v));
    forall x
      ensures Below(Some(leaf), x) == if x == prefix then Some(v) else None
    {
      if prefix <= x && x != prefix {
        GetBelow(leaf, x[|prefix|..]);
      }
    }
  }

  /**
   * Publishing under `b` a child that stores what the old child slot
   * stored, plus `v` under `rel`, stores `v` under `[b] + rel` in the
   * parent and changes nothing else.
   */
  lemma ReplaceChild<V>(n: Node<V>, b: byte, m: Node<V>, rel: seq<byte>, v: V)
    requires ValidNode(n) && ValidNode(m)
    requires n.edges.ntype <= E.Node16 && b !in E.Abs(n.edges) ==> b != 0
    requires forall x :: Below(Some(m), x) == if x == rel then Some(v) else Below(Next(n, b), x)
    ensures Updated(SetNext(n, b, m), n, [b] + rel, v)
  {
    SetNextInserts(n, b, m);
    SetNextValid(n, b, m);
    var n' := SetNext(n, b, m);
    forall k
      ensures Get(n', k) == if k == [b] + rel then Some(v) else Get(n, k)
    {
      if k != [] {
        GetBelow(n', k);
        GetBelow(n, k);
        if k[0] == b {
          assert Below(Some(m), k[1..]) == if k[1..] == rel then Some(v) else Below(Next(n, b), k[1..]);
          assert k == [b] + rel <==> k[1..] == rel;
        }
      }
    }
  }

  /** A child that stores `v` under `rel` stores it under its prefix then `rel` in its slot. */
  lemma BelowUpdated<V>(c: Node<V>, c2: Node<V>, rel: seq<byte>, v: V)
    requires ValidNode(c) && Updated(c2, c, rel, v)
    ensures forall x :: Below(Some(c2), x) == if x == c.prefix + rel then Some(v) else Below(Some(c), x)
  {
    forall x
      ensures Below(Some(c2), x) == if x == c.prefix + rel then Some(v) else Below(Some(c), x)
    {
      if c.prefix <= x {
        assert x == c.prefix + rel <==> x[|c.prefix|..] == rel;
      }
    }
  }

  /** Relinking the updated child `c2` in place of `c`, as `Graft` does on the way up. */
  lemma RelinkChild<V>(n: Node<V>, b: byte, c: Node<V>, c2: Node<V>, rel: seq<byte>, v: V)
    requires ValidNode(n) && E.Shaped(n.edges) && Next(n, b) == Some(c)
    requires ValidNode(c) && Updated(c2, c, rel, v)
    ensures Updated(SetNext(n, b, c2), n, [b] + c.prefix + rel, v)
  {
    E.NextAbs(n.edges, b);
    BelowUpdated(c, c2, rel, v);
    ReplaceChild(n, b, c2, c.prefix + rel, v);
    assert [b] + c.prefix + rel == [b] + (c.prefix + rel);
  }

  /**
   * The switch of `Insert` always has a case: no edge means `shouldInsert`,
   * a consumed key at the end of current means `shouldUpdate`, and a split
   * is three-way while key bytes remain after the divergence, two-way
   * otherwise.
   */
  lemma DispatchCases<V>(key: seq<byte>, f: Found<V>)
    requires Located(key, f)
    ensures ShouldInsert(key, f) <==> f.current.None?
    ensures |key| == f.pos ==> f.current.Some?
    ensures f.current.Some? ==> (ShouldUpdate(key, f) <==> f.dv >= |f.current.value.prefix|)
    ensures f.current.Some? && f.dv < |f.current.value.prefix| ==> ShouldSplitThreeWay(key, f) || ShouldSplitTwoWay(key, f)
  {
  }

  /** The edge byte a mutator publishes under can go into the parent's layout. */
  lemma EdgeByteFits<V>(key: seq<byte>, f: Found<V>)
    requires Located(key, f) && KeyOk(key)
    requires EdgePos(f) == 0 ==> f.parent.edges.ntype == E.Node256
    ensures 0 <= EdgePos(f) < |key|
    ensures f.parent.edges.ntype <= E.Node16 && key[EdgePos(f)] !in E.Abs(f.parent.edges) ==> key[EdgePos(f)] != 0
  {
  }

  /** `insertNode` publishes a leaf that stores the value under the rest of the key. */
  lemma InsertNodeStores<V>(key: seq<byte>, v: V, f: Found<V>)
    requires Located(key, f) && KeyOk(key) && ShouldInsert(key, f)
    requires EdgePos(f) == 0 ==> f.parent.edges.ntype == E.Node256
    ensures InsertNode(key, v, f).ok
    ensures Updated(InsertNode(key, v, f).node, f.parent, key[EdgePos(f)..], v)
  {
    EdgeByteFits(key, f);
    var b, rest := key[f.pos], key[f.pos + 1..];
    SwapNextPublishes(f.parent, b, None, NewNode(E.Node4, rest, Some(v)));
    LeafBelow(rest, v);
    ReplaceChild(f.parent, b, NewNode(E.Node4, rest, Some(v)), rest, v);
    assert key[f.pos..] == [b] + rest;
  }

  /** `updateNode` publishes current with the new value: the key's own value changes, nothing else. */
  lemma UpdateNodeStores<V>(key: seq<byte>, v: V, f: Found<V>)
    requires Located(key, f) && f.current.Some? && ShouldUpdate(key, f)
    ensures UpdateNode(key, v, f).ok
    ensures Updated(UpdateNode(key, v, f).node, f.parent, key[EdgePos(f)..], v)
  {
    var c := f.current.value;
    var b := key[EdgePos(f)];
    var m := Node(c.prefix, Some(v), c.edges);
    ChildValid(f.parent, b);
    E.NextAbs(f.parent.edges, b);
    SwapNextPublishes(f.parent, b, f.current, m);
    SameEdges(c, m);
    forall x
      ensures Below(Some(m), x) == if x == c.prefix then Some(v) else Below(Some(c), x)
    {
    }
    ReplaceChild(f.parent, b, m, c.prefix, v);
    assert key[EdgePos(f)..] == [b] + c.prefix;
  }

  /**
   * The node a split builds, holding under `c.prefix[d]` the copy of `c`
   * cut after that byte, stores what `c` stores for every key that goes
   * through that byte; `c` stores nothing under any other key.
   */
  lemma SplitRoute<V>(c: Node<V>, d: nat, m: Node<V>)
    requires ValidNode(c) && d < |c.prefix|
    requires ValidNode(m) && m.prefix == c.prefix[..d]
    requires E.Shaped(m.edges) && Next(m, c.prefix[d]) == Some(Node(c.prefix[d + 1..], c.value, c.edges))
    ensures forall x :: c.prefix[..d + 1] <= x ==> Below(Some(m), x) == Below(Some(c), x)
    ensures forall x :: !(c.prefix[..d + 1] <= x) ==> Below(Some(c), x) == None
  {
    var p := c.prefix;
    var n2 := Node(p[d + 1..], c.value, c.edges);
    SameEdges(c, n2);
    forall x | p[..d + 1] <= x
      ensures Below(Some(m), x) == Below(Some(c), x)
    {
      assert p[..d] <= x;
      GetBelow(m, x[d..]);
      assert x[d..][0] == p[d];
      assert x[d..][1..] == x[d + 1..];
      assert p <= x <==> p[d + 1..] <= x[d + 1..];
      if p <= x {
        assert x[d + 1..][|p| - d - 1..] == x[|p|..];
      }
    }
    forall x | !(p[..d + 1] <= x)
      ensures Below(Some(c), x) == None
    {
      assert !(p <= x);
    }
  }

  /** The cut-down copy of current that both splits hang below the new node. */
  lemma TrimmedValid<V>(c: Node<V>, d: nat)
    requires ValidNode(c) && d < |c.prefix|
    ensures ValidNode(Node(c.prefix[d + 1..], c.value, c.edges))
  {
    SameEdges(c, Node(c.prefix[d + 1..], c.value, c.edges));
  }

  /**
   * The node `splitTwoWay` builds: the value under the shared part `p[..d]`
   * of current's prefix `p`, and below it everything current stores.
   */
  lemma TwoWayNode<V>(c: Node<V>, d: nat, v: V)
    requires ValidNode(c) && d < |c.prefix|
    ensures var m := SetNext(NewNode(E.Node4, c.prefix[..d], Some(v)), c.prefix[d], Node(c.prefix[d + 1..], c.value, c.edges));
      && ValidNode(m)
      && forall x :: Below(Some(m), x) == if x == c.prefix[..d] then Some(v) else Below(Some(c), x)
  {
    var p := c.prefix;
    var n1 := NewNode(E.Node4, p[..d], Some(v));
    var n2 := Node(p[d + 1..], c.value, c.edges);
    NewNodeEmpty(E.Node4, p[..d], Some(v));
    TrimmedValid(c, d);
    SetNextInserts(n1, p[d], n2);
    SetNextValid(n1, p[d], n2);
    var m := SetNext(n1, p[d], n2);
    SplitRoute(c, d, m);
    forall x | p[..d] <= x && x != p[..d] && !(p[..d + 1] <= x)
      ensures Below(Some(m), x) == None
    {
      TwoWayAt(p, d, m, x);
    }
  }

  /** Below the two-way node, a key that leaves `p` at `d` and goes on reaches nothing. */
  lemma TwoWayAt<V>(p: seq<byte>, d: nat, m: Node<V>, x: seq<byte>)
    requires d < |p| && ValidNode(m) && m.prefix == p[..d]
    requires E.Shaped(m.edges) && forall y :: y != p[d] ==> Next(m, y) == None
    requires p[..d] <= x && x != p[..d] && !(p[..d + 1] <= x)
    ensures Below(Some(m), x) == None
  {
    GetBelow(m, x[d..]);
    assert x[..d + 1] == p[..d] + [x[d]];
  }

  /**
   * The node `splitThreeWay` builds: no value of its own, current's keys
   * below `p[d]` and the value under `p[..d] + [e] + rest`, for a key byte
   * `e` that differs from `p[d]`.
   */
  lemma ThreeWayNode<V>(c: Node<V>, d: nat, e: byte, rest: seq<byte>, v: V)
    requires ValidNode(c) && d < |c.prefix| && c.prefix[d] != 0
    requires e != c.prefix[d] && e != 0
    requires forall i :: 0 <= i < |rest| ==> rest[i] != 0
    ensures var n1 := SetNext(NewNode(E.Node4, c.prefix[..d], None), c.prefix[d], Node(c.prefix[d + 1..], c.value, c.edges));
      && E.Valid(n1.edges)
      && var m := SetNext(n1, e, NewNode(E.Node4, rest, Some(v)));
      && ValidNode(m)
      && forall x :: Below(Some(m), x) == if x == c.prefix[..d] + [e] + rest then Some(v) else Below(Some(c), x)
  {
    var p := c.prefix;
    var n1 := NewNode(E.Node4, p[..d], None);
    var n2 := Node(p[d + 1..], c.value, c.edges);
    var n3 := NewNode(E.Node4, rest, Some(v));
    NewNodeEmpty<V>(E.Node4, p[..d], None);
    TrimmedValid(c, d);
    LeafBelow(rest, v);
    SetNextInserts(n1, p[d], n2);
    SetNextValid(n1, p[d], n2);
    var n1' := SetNext(n1, p[d], n2);
    SetNextInserts(n1', e, n3);
    SetNextValid(n1', e, n3);
    var m := SetNext(n1', e, n3);
    ThreeWayBelow(c, d, e, rest, v, m, n3);
  }

  /** What the three-way node `m` stores, given its two children and nothing else. */
  lemma ThreeWayBelow<V>(c: Node<V>, d: nat, e: byte, rest: seq<byte>, v: V, m: Node<V>, n3: Node<V>)
    requires ValidNode(c) && d < |c.prefix| && e != c.prefix[d]
    requires ValidNode(m) && m.prefix == c.prefix[..d] && m.value == None && E.Shaped(m.edges)
    requires Next(m, c.prefix[d]) == Some(Node(c.prefix[d + 1..], c.value, c.edges))
    requires Next(m, e) == Some(n3) && ValidNode(n3)
    requires forall y :: y != e && y != c.prefix[d] ==> Next(m, y) == None
    requires forall y :: Below(Some(n3), y) == if y == rest then Some(v) else None
    ensures forall x :: Below(Some(m), x) == if x == c.prefix[..d] + [e] + rest then Some(v) else Below(Some(c), x)
  {
    var p := c.prefix;
    SplitRoute(c, d, m);
    forall x | p[..d] <= x && !(p[..d + 1] <= x)
      ensures Below(Some(m), x) == if x == p[..d] + [e] + rest then Some(v) else None
    {
      ThreeWayAt(p, d, e, rest, v, m, n3, x);
    }
  }

  lemma ThreeWayAt<V>(p: seq<byte>, d: nat, e: byte, rest: seq<byte>, v: V, m: Node<V>, n3: Node<V>, x: seq<byte>)
    requires d < |p| && e != p[d] && ValidNode(m) && m.prefix == p[..d] && ValidNode(n3)
    requires E.Shaped(m.edges) && Next(m, e) == Some(n3)
    requires forall y :: y != e && y != p[d] ==> Next(m, y) == None
    requires m.value == None
    requires forall y :: Below(Some(n3), y) == if y == rest then Some(v) else None
    requires p[..d] <= x && !(p[..d + 1] <= x)
    ensures Below(Some(m), x) == if x == p[..d] + [e] + rest then Some(v) else None
  {
    if |x| > d {
      GetBelow(m, x[d..]);
      assert x[..d + 1] == p[..d] + [x[d]];
      assert x[d..][1..] == x[d + 1..];
      if x[d] == e {
        assert x == p[..d] + [e] + rest <==> x[d + 1..] == rest;
      }
    }
  }

  /** `splitTwoWay` stores the value under the key, where it ends inside current's prefix. */
  lemma SplitTwoWayStores<V>(key: seq<byte>, v: V, f: Found<V>)
    requires Located(key, f) && f.current.Some?
    requires f.dv < |f.current.value.prefix| && ShouldSplitTwoWay(key, f)
    ensures SplitTwoWay(key, v, f).ok
    ensures Updated(SplitTwoWay(key, v, f).node, f.parent, key[EdgePos(f)..], v)
  {
    var c := f.current.value;
    ChildValid(f.parent, key[f.pos - 1]);
    assert key[f.pos..] == key[f.pos..f.pos + f.dv];
    var s := TwoWayPublishes(f.parent, key[f.pos - 1], c, f.dv, v);
    TwoWayUnfolds(key, v, f, c, s);
  }

  /** The key at a two-way split: the edge byte, then the shared prefix part, where the key ends. */
  lemma TwoWayKey(key: seq<byte>, pos: nat, q: seq<byte>)
    requires 1 <= pos <= |key| && q == key[pos..]
    ensures key[pos - 1..] == [key[pos - 1]] + q
  {
  }

  /** `SplitTwoWay` swaps the node it builds in for current under the byte before `pos`. */
  lemma TwoWayUnfolds<V>(key: seq<byte>, v: V, f: Found<V>, c: Node<V>, s: Swapped<V>)
    requires E.Valid(f.parent.edges) && f.current == Some(c)
    requires f.dv < |c.prefix| && 1 <= f.pos && f.pos + f.dv == |key|
    requires c.prefix[..f.dv] == key[f.pos..]
    requires s == SwapNext(f.parent, key[f.pos - 1], Some(c),
      SetNext(NewNode(E.Node4, c.prefix[..f.dv], Some(v)), c.prefix[f.dv], Node(c.prefix[f.dv + 1..], c.value, c.edges)))
    requires ValidNode(f.parent) && s.ok && Updated(s.node, f.parent, [key[f.pos - 1]] + c.prefix[..f.dv], v)
    ensures SplitTwoWay(key, v, f).ok
    ensures Updated(SplitTwoWay(key, v, f).node, f.parent, key[f.pos - 1..], v)
  {
    assert key[f.pos..f.pos + f.dv] == key[f.pos..];
    assert SplitTwoWay(key, v, f) == s;
    TwoWayKey(key, f.pos, c.prefix[..f.dv]);
  }

  /** Publishing the node `splitTwoWay` builds in place of current stores the value under the shared prefix part. */
  lemma TwoWayPublishes<V>(n: Node<V>, b: byte, c: Node<V>, d: nat, v: V) returns (s: Swapped<V>)
    requires ValidNode(n) && E.Shaped(n.edges) && Next(n, b) == Some(c)
    requires ValidNode(c) && d < |c.prefix|
    ensures s == SwapNext(n, b, Some(c), SetNext(NewNode(E.Node4, c.prefix[..d], Some(v)), c.prefix[d], Node(c.prefix[d + 1..], c.value, c.edges)))
    ensures s.ok && Updated(s.node, n, [b] + c.prefix[..d], v)
  {
    E.NextAbs(n.edges, b);
    TwoWayNode(c, d, v);
    var m := SetNext(NewNode(E.Node4, c.prefix[..d], Some(v)), c.prefix[d], Node(c.prefix[d + 1..], c.value, c.edges));
    SwapNextPublishes(n, b, Some(c), m);
    ReplaceChild(n, b, m, c.prefix[..d], v);
    s := SwapNext(n, b, Some(c), m);
  }

  /** `splitThreeWay` stores the value under the key, which leaves current's prefix at `dv`. */
  lemma SplitThreeWayStores<V>(key: seq<byte>, v: V, f: Found<V>)
    requires Located(key, f) && KeyOk(key) && f.current.Some?
    requires f.dv < |f.current.value.prefix| && ShouldSplitThreeWay(key, f)
    ensures f.current.value.prefix[f.dv] != 0
    ensures SplitThreeWay(key, v, f).ok
    ensures Updated(SplitThreeWay(key, v, f).node, f.parent, key[EdgePos(f)..], v)
  {
    var c := f.current.value;
    var d, pos := f.dv, f.pos;
    var b := key[pos - 1];
    ChildValid(f.parent, b);
    assert EdgePos(f) == pos - 1;
    var e, rest := key[pos + d], key[pos + d + 1..];
    forall i | 0 <= i < |rest|
      ensures rest[i] != 0
    {
      assert rest[i] == key[pos + d + 1 + i];
    }
    var s := ThreeWayPublishes(f.parent, b, c, d, e, rest, v);
    ThreeWayUnfolds(key, v, f, c, e, rest);
    ThreeWayKey(key, pos, d, c.prefix);
    Rekey(s, SplitThreeWay(key, v, f), f.parent, [b] + (c.prefix[..d] + [e] + rest), key[EdgePos(f)..], v);
  }

  /** A published update read under an equal swap result and an equal key. */
  lemma Rekey<V>(s: Swapped<V>, t: Swapped<V>, n: Node<V>, r1: seq<byte>, r2: seq<byte>, v: V)
    requires ValidNode(n) && s == t && r1 == r2
    requires s.ok && Updated(s.node, n, r1, v)
    ensures t.ok && Updated(t.node, n, r2, v)
  {
  }

  /** `SplitThreeWay` swaps the node it builds in for current under the byte before `pos`. */
  lemma ThreeWayUnfolds<V>(key: seq<byte>, v: V, f: Found<V>, c: Node<V>, e: byte, rest: seq<byte>)
    requires E.Valid(f.parent.edges) && f.current == Some(c)
    requires f.dv < |c.prefix| && 1 <= f.pos && f.pos + f.dv < |key|
    requires c.prefix[f.dv] != 0 && e == key[f.pos + f.dv] && rest == key[f.pos + f.dv + 1..]
    ensures var d := f.dv;
      var n1 := SetNext(NewNode(E.Node4, c.prefix[..d], None), c.prefix[d], Node(c.prefix[d + 1..], c.value, c.edges));
      SplitThreeWay(key, v, f) == SwapNext(f.parent, key[f.pos - 1], Some(c), SetNext(n1, e, NewNode(E.Node4, rest, Some(v))))
  {
  }

  /** The key at a three-way split: the edge byte, the shared prefix part, the divergent byte and the rest. */
  lemma ThreeWayKey(key: seq<byte>, pos: nat, d: nat, p: seq<byte>)
    requires 1 <= pos && pos + d < |key| && d <= |p| && p[..d] == key[pos..pos + d]
    ensures key[pos - 1..] == [key[pos - 1]] + (p[..d] + [key[pos + d]] + key[pos + d + 1..])
  {
    assert key[pos - 1..] == [key[pos - 1]] + key[pos..pos + d] + [key[pos + d]] + key[pos + d + 1..];
  }

  /** Publishing the node `splitThreeWay` builds in place of current stores the value under its route. */
  lemma ThreeWayPublishes<V>(n: Node<V>, b: byte, c: Node<V>, d: nat, e: byte, rest: seq<byte>, v: V) returns (s: Swapped<V>)
    requires ValidNode(n) && E.Shaped(n.edges) && Next(n, b) == Some(c)
    requires ValidNode(c) && d < |c.prefix| && c.prefix[d] != 0
    requires e != c.prefix[d] && e != 0
    requires forall i :: 0 <= i < |rest| ==> rest[i] != 0
    ensures var n1 := SetNext(NewNode(E.Node4, c.prefix[..d], None), c.prefix[d], Node(c.prefix[d + 1..], c.value, c.edges));
      && E.Valid(n1.edges)
      && s == SwapNext(n, b, Some(c), SetNext(n1, e, NewNode(E.Node4, rest, Some(v))))
    ensures s.ok && Updated(s.node, n, [b] + (c.prefix[..d] + [e] + rest), v)
  {
    E.NextAbs(n.edges, b);
    ThreeWayNode(c, d, e, rest, v);
    var n1 := SetNext(NewNode(E.Node4, c.prefix[..d], None), c.prefix[d], Node(c.prefix[d + 1..], c.value, c.edges));
    var m := SetNext(n1, e, NewNode(E.Node4, rest, Some(v)));
    SwapNextPublishes(n, b, Some(c), m);
    ReplaceChild(n, b, m, c.prefix[..d] + [e] + rest, v);
    s := SwapNext(n, b, Some(c), m);
  }

  /** Whichever case the switch takes, the first round publishes the value under the key. */
  lemma PublishStores<V>(key: seq<byte>, v: V, f: Found<V>)
    requires Located(key, f) && KeyOk(key)
    requires EdgePos(f) == 0 ==> f.parent.edges.ntype == E.Node256
    ensures Publish(key, v, f).ok
    ensures Updated(Publish(key, v, f).node, f.parent, key[EdgePos(f)..], v)
  {
    DispatchCases(key, f);
    if ShouldInsert(key, f) {
      InsertNodeStores(key, v, f);
    } else if ShouldUpdate(key, f) {
      UpdateNodeStores(key, v, f);
    } else if ShouldSplitThreeWay(key, f) {
      SplitThreeWayStores(key, v, f);
    } else {
      SplitTwoWayStores(key, v, f);
    }
  }

  /**
   * Rebuilding the path from `n` down to the parent `find` stopped at
   * around the published parent stores the value under the rest of the key
   * in `n` and nothing else.
   */
  lemma {:induction false} GraftStores<V>(n: Node<V>, key: seq<byte>, pos: nat, dv: nat, f: Found<V>, np: Node<V>, v: V)
    requires ValidNode(n) && pos < |key| && f == FindFrom(n, key, pos, dv)
    requires Updated(np, f.parent, key[EdgePos(f)..], v)
    ensures Updated(Graft(n, key, pos, dv, np), n, key[pos..], v)
    decreases |key| - pos, 1
  {
    ChildValid(n, key[pos]);
    if Deeper(n, key, pos) {
      GraftDeeper(n, key, pos, dv, f, np, v);
    } else {
      GraftStops(n, key, pos, dv, np);
    }
  }

  /** `find` goes on below `n`: the child's whole prefix matches and key bytes remain after it. */
  ghost predicate Deeper<V>(n: Node<V>, key: seq<byte>, pos: nat)
    requires ValidNode(n) && pos < |key|
  {
    ChildValid(n, key[pos]);
    var c := Next(n, key[pos]);
    && c.Some?
    && Divergence(c.value.prefix, key[pos + 1..]) == |c.value.prefix|
    && pos + 1 + |c.value.prefix| < |key|
  }

  lemma {:induction false} GraftDeeper<V>(n: Node<V>, key: seq<byte>, pos: nat, dv: nat, f: Found<V>, np: Node<V>, v: V)
    requires ValidNode(n) && pos < |key| && f == FindFrom(n, key, pos, dv)
    requires Updated(np, f.parent, key[EdgePos(f)..], v)
    requires Deeper(n, key, pos)
    ensures Updated(Graft(n, key, pos, dv, np), n, key[pos..], v)
    decreases |key| - pos, 0
  {
    ChildValid(n, key[pos]);
    var c := Next(n, key[pos]).value;
    var pos2 := pos + 1 + |c.prefix|;
    var dv2 := if |c.prefix| > 0 then |c.prefix| else dv;
    Descend(n, key, pos, dv, np, c, pos2, dv2);
    GraftStores(c, key, pos2, dv2, f, np, v);
    KeySplit(key, pos, pos2);
    RelinkChild(n, key[pos], c, Graft(c, key, pos2, dv2, np), key[pos2..], v);
  }

  /** Where `find` stops below `n`, the parent is `n` itself and `Graft` is the published parent. */
  lemma GraftStops<V>(n: Node<V>, key: seq<byte>, pos: nat, dv: nat, np: Node<V>)
    requires ValidNode(n) && pos < |key| && !Deeper(n, key, pos)
    ensures FindFrom(n, key, pos, dv).parent == n && EdgePos(FindFrom(n, key, pos, dv)) == pos
    ensures Graft(n, key, pos, dv, np) == np
  {
  }

  /** Where `find` moves on from `n` to its child `c`, `Graft` relinks the grafted child under the same byte. */
  lemma Descend<V>(n: Node<V>, key: seq<byte>, pos: nat, dv: nat, np: Node<V>, c: Node<V>, pos2: nat, dv2: nat)
    requires ValidNode(n) && pos < |key| && E.Shaped(n.edges) && Next(n, key[pos]) == Some(c)
    requires pos2 < |key|
    requires if |c.prefix| > 0 then pos2 == pos + 1 + |c.prefix| && dv2 == |c.prefix| == Divergence(c.prefix, key[pos + 1..])
             else pos2 == pos + 1 && dv2 == dv
    ensures ValidNode(c) && c.prefix == key[pos + 1..pos2]
    ensures FindFrom(n, key, pos, dv) == FindFrom(c, key, pos2, dv2)
    ensures Graft(n, key, pos, dv, np) == SetNext(n, key[pos], Graft(c, key, pos2, dv2, np))
  {
    ChildValid(n, key[pos]);
    if |c.prefix| > 0 {
      assert c.prefix[..|c.prefix|] == c.prefix;
      assert key[pos + 1..][..|c.prefix|] == key[pos + 1..pos2];
      DescendPrefix(n, key, pos, dv, np, c, pos2, dv2);
    } else {
      DescendBare(n, key, pos, dv, np, c, pos2);
    }
  }

  /** `Descend` through a child with a prefix, which the key carries in full. */
  lemma DescendPrefix<V>(n: Node<V>, key: seq<byte>, pos: nat, dv: nat, np: Node<V>, c: Node<V>, pos2: nat, d: nat)
    requires ValidNode(n) && pos < |key| && Next(n, key[pos]) == Some(c)
    requires |c.prefix| > 0 && d == |c.prefix| == Divergence(c.prefix, key[pos + 1..]) && pos2 == pos + 1 + d < |key|
    ensures FindFrom(n, key, pos, dv) == FindFrom(c, key, pos2, d)
    ensures Graft(n, key, pos, dv, np) == SetNext(n, key[pos], Graft(c, key, pos2, d, np))
  {
    FindPrefix(n, key, pos, dv, c, pos2, d);
    GraftPrefix(n, key, pos, dv, np, c, pos2, d);
  }

  lemma FindPrefix<V>(n: Node<V>, key: seq<byte>, pos: nat, dv: nat, c: Node<V>, pos2: nat, d: nat)
    requires ValidNode(n) && pos < |key| && Next(n, key[pos]) == Some(c)
    requires |c.prefix| > 0 && d == |c.prefix| == Divergence(c.prefix, key[pos + 1..]) && pos2 == pos + 1 + d < |key|
    ensures FindFrom(n, key, pos, dv) == FindFrom(c, key, pos2, d)
  {
    ChildValid(n, key[pos]);
    var f := FindFrom(c, key, pos2, d);
    assert !(|c.prefix| > d || pos + 1 + d == |key|);
    assert FindFrom(n, key, pos, dv) == f;
  }

  lemma GraftPrefix<V>(n: Node<V>, key: seq<byte>, pos: nat, dv: nat, np: Node<V>, c: Node<V>, pos2: nat, d: nat)
    requires ValidNode(n) && pos < |key| && Next(n, key[pos]) == Some(c)
    requires |c.prefix| > 0 && d == |c.prefix| == Divergence(c.prefix, key[pos + 1..]) && pos2 == pos + 1 + d < |key|
    ensures Graft(n, key, pos, dv, np) == SetNext(n, key[pos], Graft(c, key, pos2, d, np))
  {
    ChildValid(n, key[pos]);
    var g := Graft(c, key, pos2, d, np);
    assert !(|c.prefix| > d || pos + 1 + d == |key|);
    assert Graft(n, key, pos, dv, np) == SetNext(n, key[pos], g);
  }

  /** `Descend` through a child with an empty prefix. */
  lemma DescendBare<V>(n: Node<V>, key: seq<byte>, pos: nat, dv: nat, np: Node<V>, c: Node<V>, pos2: nat)
    requires ValidNode(n) && pos2 == pos + 1 < |key| && Next(n, key[pos]) == Some(c)
    requires |c.prefix| == 0
    ensures FindFrom(n, key, pos, dv) == FindFrom(c, key, pos2, dv)
    ensures Graft(n, key, pos, dv, np) == SetNext(n, key[pos], Graft(c, key, pos2, dv, np))
  {
    ChildValid(n, key[pos]);
  }

  /** A key read from `pos`: the edge byte, the child's prefix up to `pos2`, and the rest. */
  lemma KeySplit(key: seq<byte>, pos: nat, pos2: nat)
    requires pos < pos2 <= |key|
    ensures key[pos..] == [key[pos]] + key[pos + 1..pos2] + key[pos2..]
  {
  }

  /**
   * `Insert` (one round, which always publishes in a sequential run)
   * stores the value under the key, keeps every other key, and keeps the
   * root a valid value-less Node256.
   */
  lemma InsertStores<V>(root: Node<V>, key: seq<byte>, v: V)
    requires ValidRoot(root) && KeyOk(key)
    ensures InsertTree(root, key, v).ok
    ensures ValidRoot(InsertTree(root, key, v).node)
    ensures forall k :: Get(InsertTree(root, key, v).node, k) == if k == key then Some(v) else Get(root, k)
  {
    CommitStores(root, key, v);
  }

  lemma CommitStores<V>(root: Node<V>, key: seq<byte>, v: V)
    requires ValidRoot(root) && KeyOk(key)
    ensures Commit(root, key, v).ok
    ensures ValidRoot(Commit(root, key, v).node)
    ensures forall k :: Get(Commit(root, key, v).node, k) == if k == key then Some(v) else Get(root, k)
  {
    var f := Find(root, key);
    PublishStores(key, v, f);
    var np := Publish(key, v, f).node;
    GraftStores(root, key, 0, 0, f, np, v);
    var r := Graft(root, key, 0, 0, np);
    assert key[0..] == key;
    assert Get(r, []) == Get(root, []);
  }

  /**
   * What `find` reports from `n` is what `n` stores under the rest of the
   * key: the search and the reference reading agree on every key.
   */
  lemma {:induction false} ReachedGet<V>(n: Node<V>, key: seq<byte>, pos: nat, dv: nat)
    requires ValidNode(n) && pos < |key|
    ensures Reached(key, FindFrom(n, key, pos, dv)) == Get(n, key[pos..])
    decreases |key| - pos, 1
  {
    if Deeper(n, key, pos) {
      ReachedDeeper(n, key, pos, dv);
    } else {
      ReachedStops(n, key, pos, dv);
    }
  }

  lemma {:induction false} ReachedDeeper<V>(n: Node<V>, key: seq<byte>, pos: nat, dv: nat)
    requires ValidNode(n) && pos < |key| && Deeper(n, key, pos)
    ensures Reached(key, FindFrom(n, key, pos, dv)) == Get(n, key[pos..])
    decreases |key| - pos, 0
  {
    ChildValid(n, key[pos]);
    var c := Next(n, key[pos]).value;
    var pos2 := pos + 1 + |c.prefix|;
    var dv2 := if |c.prefix| > 0 then |c.prefix| else dv;
    Descend(n, key, pos, dv, n, c, pos2, dv2);
    ReachedGet(c, key, pos2, dv2);
    GetStep(n, key, pos, c, pos2);
  }

  /** Reading a key below `n` through the child `c` whose whole prefix the key carries. */
  lemma GetStep<V>(n: Node<V>, key: seq<byte>, pos: nat, c: Node<V>, pos2: nat)
    requires ValidNode(n) && E.Shaped(n.edges) && pos < pos2 <= |key|
    requires Next(n, key[pos]) == Some(c) && c.prefix == key[pos + 1..pos2]
    ensures ValidNode(c) && Get(n, key[pos..]) == Get(c, key[pos2..])
  {
    ChildValid(n, key[pos]);
    GetBelow(n, key[pos..]);
    assert key[pos..][1..] == key[pos + 1..];
    assert key[pos + 1..][|c.prefix|..] == key[pos2..];
  }

  /** Where `find` stops below `n`, it reports what `n` stores under the rest of the key. */
  lemma ReachedStops<V>(n: Node<V>, key: seq<byte>, pos: nat, dv: nat)
    requires ValidNode(n) && pos < |key| && !Deeper(n, key, pos)
    ensures Reached(key, FindFrom(n, key, pos, dv)) == Get(n, key[pos..])
  {
    GetBelow(n, key[pos..]);
    assert key[pos..][1..] == key[pos + 1..];
    var c := Next(n, key[pos]);
    if c.Some? {
      var m := c.value;
      var rest := key[pos + 1..];
      if |m.prefix| > 0 {
        var d := Divergence(m.prefix, rest);
        if d == |m.prefix| {
          assert m.prefix == rest[..d];
          assert rest[|m.prefix|..] == [];
        } else {
          assert !(m.prefix <= rest);
        }
      }
    }
  }

  /** `Lookup` answers exactly what the tree stores under the key. */
  lemma LookupGet<V>(root: Node<V>, key: seq<byte>)
    requires ValidNode(root) && |key| > 0
    ensures Lookup(root, key) == Get(root, key)
  {
    ReachedGet(root, key, 0, 0);
    assert key[0..] == key;
  }

  /**
   * After `Insert(k, v)`, `Lookup(k)` answers v and every other key answers
   * what it answered before, whether or not one key is a prefix of the other.
   */
  lemma InsertThenLookup<V>(root: Node<V>, key: seq<byte>, v: V, k: seq<byte>)
    requires ValidRoot(root) && KeyOk(key) && |k| > 0
    ensures InsertTree(root, key, v).ok && ValidRoot(InsertTree(root, key, v).node)
    ensures Lookup(InsertTree(root, key, v).node, k) == if k == key then Some(v) else Lookup(root, k)
  {
    InsertStores(root, key, v);
    LookupGet(root, k);
    LookupGet(InsertTree(root, key, v).node, k);
  }

  /** Inserting the same key twice: the second value wins and no other key changes. */
  lemma InsertTwice<V>(root: Node<V>, key: seq<byte>, v1: V, v2: V) returns (t1: Node<V>, t2: Node<V>)
    requires ValidRoot(root) && KeyOk(key)
    ensures ValidRoot(t1) && t1 == InsertTree(root, key, v1).node
    ensures ValidRoot(t2) && t2 == InsertTree(t1, key, v2).node
    ensures forall k :: Get(t2, k) == if k == key then Some(v2) else Get(root, k)
  {
    InsertStores(root, key, v1);
    t1 := InsertTree(root, key, v1).node;
    InsertStores(t1, key, v2);
    t2 := InsertTree(t1, key, v2).node;
  }

  /** `New`'s root is a valid root and stores nothing. */
  lemma NewRootEmpty<V>()
    ensures ValidRoot(NewRoot<V>())
    ensures forall k :: Get(NewRoot<V>(), k) == None
  {
    NewNodeEmpty<V>(E.Node256, [], None);
    forall k | k != []
      ensures Get(NewRoot<V>(), k) == None
    {
      GetBelow(NewRoot<V>(), k);
    }
  }

  /**
   * The compare-and-swap: it publishes exactly when the key reads
   * `expected`; then the key reads the new value and nothing else changes,
   * and otherwise the tree is left as it was.
   */
  lemma SwapCas<V>(root: Node<V>, key: seq<byte>, expected: Option<V>, value: V)
    requires ValidRoot(root) && KeyOk(key)
    ensures Swap(root, key, expected, value).ok <==> Get(root, key) == expected
    ensures !Swap(root, key, expected, value).ok ==> Swap(root, key, expected, value).node == root
    ensures ValidRoot(Swap(root, key, expected, value).node)
    ensures Swap(root, key, expected, value).ok ==>
      forall k :: Get(Swap(root, key, expected, value).node, k) == if k == key then Some(value) else Get(root, k)
  {
    LookupGet(root, key);
    CommitStores(root, key, value);
  }

  /**
   * Where the key is stored, `Swap` as written decides as the
   * compare-and-swap does: the two differ only on keys the tree does not hold.
   */
  lemma SwapAsWrittenPresent<V>(root: Node<V>, key: seq<byte>, expected: Option<V>, value: V)
    requires ValidRoot(root) && KeyOk(key) && Get(root, key).Some?
    ensures SwapAsWritten(root, key, expected, value) == Swap(root, key, expected, value)
  {
    LookupGet(root, key);
    var f := Find(root, key);
    DispatchCases(key, f);
  }

  /**
   * `Swap` as written publishes into an empty tree although the caller
   * expects the key to hold a value: the compare half of the swap is skipped
   * when `find` reaches no node.
   */
  lemma SwapAsWrittenIgnoresExpected<V>(a: V, b: V)
    ensures ValidRoot(NewRoot<V>()) && Get(NewRoot<V>(), [1]) == None
    ensures SwapAsWritten(NewRoot<V>(), [1], Some(a), b).ok
    ensures !Swap(NewRoot<V>(), [1], Some(a), b).ok
  {
    NewRootEmpty<V>();
    CommitStores(NewRoot<V>(), [1], b);
    SwapCas(NewRoot<V>(), [1], Some(a), b);
  }

  /**
   * `Swap` as written refuses a nil `old` for a key that ends exactly at a
   * node, even when that node holds no value and the key is absent.  In the
   * tree that stores only "ab" through a value-less, prefix-less node under
   * 'a' (the shape that inserting "ab" and then "ac" gives that node),
   * swapping "a" from nil fails, while the compare-and-swap succeeds.
   */
  lemma SwapAsWrittenInnerNil<V>(a: V, x: V)
    ensures var n := SetNext(NewNode(E.Node4, [], None), 98, NewNode(E.Node4, [], Some(a)));
      var t := SetNext(NewRoot<V>(), 97, n);
      && ValidRoot(t)
      && Get(t, [97, 98]) == Some(a) && Get(t, [97]) == None
      && !SwapAsWritten(t, [97], None, x).ok
      && Swap(t, [97], None, x).ok
  {
    var leaf := NewNode(E.Node4, [], Some(a));
    var n0 := NewNode(E.Node4, [], None);
    NewNodeEmpty(E.Node4, [], Some(a));
    NewNodeEmpty<V>(E.Node4, [], None);
    SetNextInserts(n0, 98, leaf);
    SetNextValid(n0, 98, leaf);
    var n := SetNext(n0, 98, leaf);
    NewRootEmpty<V>();
    var root := NewRoot<V>();
    SetNextInserts(root, 97, n);
    SetNextValid(root, 97, n);
    var t := SetNext(root, 97, n);
    GetBelow(t, [97, 98]);
    GetBelow(n, [98]);
    GetBelow(t, [97]);
    assert [97, 98][1..] == [98];
    assert Find(t, [97]) == Found(t, Some(n), 1, 0);
    SwapCas(t, [97], None, x);
  }

  /**
   * `Lookup` as written answers a key that ends on the edge byte of a node
   * with a longer prefix: after inserting "test" into an empty tree,
   * looking up "t" reports the value stored under "test".
   */
  lemma LookupAsWrittenPrefix<V>(v: V)
    ensures var t := InsertTree(NewRoot<V>(), [116, 101, 115, 116], v).node;
      && ValidNode(t)
      && Get(t, [116]) == None
      && LookupAsWritten(t, [116]) == Some(v)
      && Lookup(t, [116]) == None
  {
    NewRootEmpty<V>();
    var root := NewRoot<V>();
    var key: seq<byte> := [116, 101, 115, 116];
    var leaf := NewNode(E.Node4, key[1..], Some(v));
    assert Find(root, key) == Found(root, None, 0, 0);
    SwapNextPublishes(root, 116, None, leaf);
    var t := SetNext(root, 116, leaf);
    assert InsertTree(root, key, v).node == t;
    InsertStores(root, key, v);
    SetNextInserts(root, 116, leaf);
    assert Divergence(leaf.prefix, [116][1..]) == 0;
    assert Find(t, [116]) == Found(t, Some(leaf), 1, 0);
    LookupGet(t, [116]);
  }
}
