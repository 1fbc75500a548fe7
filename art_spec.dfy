/**
 * The locator and the mutators of art.go, on node values.
 *
 * `find` walks down from the root and reports where the key leaves the
 * tree; the four mutators build the replacement for the edge it stopped
 * at and publish it into the parent with `swapNext`.  The Go tree then
 * sees the change through the parent's edge cell; on values, `Graft`
 * rebuilds the path from the root down to that parent around the new
 * parent node.
 */
module ArtSpec {
  import opened Types
  import E = NodeEdges
  import opened Nodes

  /**
   * The keys the tree stores: non-empty (the first byte picks a root edge)
   * and, below the root, free of byte 0, which the small layouts cannot
   * tell apart from an unused slot.
   */
  predicate KeyOk(key: seq<byte>)
  {
    |key| > 0 && forall i :: 1 <= i < |key| ==> key[i] != 0
  }

  /** The root `New` builds: a Node256 with no prefix and no value. */
  function NewRoot<V>(): Node<V>
  {
    NewNode(E.Node256, [], None)
  }

  /** What the root of a tree keeps: the tree invariant on a value-less Node256 with no prefix. */
  ghost predicate ValidRoot<V>(root: Node<V>)
  {
    ValidNode(root) && root.prefix == [] && root.value == None && root.edges.ntype == E.Node256
  }

  /** `divergence` (art.go:223-235): the length of the longest common prefix. */
  function Divergence(prefix: seq<byte>, key: seq<byte>): (r: nat)
    ensures r <= |prefix| && r <= |key|
    ensures prefix[..r] == key[..r]
    ensures r < |prefix| && r < |key| ==> prefix[r] != key[r]
  {
    if prefix == [] || key == [] || prefix[0] != key[0] then 0
    else
      var r := 1 + Divergence(prefix[1..], key[1..]);
      assert prefix[..r] == [prefix[0]] + prefix[1..][..r - 1];
      assert key[..r] == [key[0]] + key[1..][..r - 1];
      r
  }

  /** The four results of `find`: parent, current, pos and dv. */
  datatype Found<V> = Found(parent: Node<V>, current: Option<Node<V>>, pos: nat, dv: nat)

  /**
   * The position in the key of the edge byte under which the parent holds
   * the node `find` stopped at (or would hold the new leaf): `pos` itself
   * when there is no such node, `pos - 1` at a split and
   * `pos - (len(prefix) + 1)` at an exact match, as `updateNode` computes it.
   */
  function EdgePos<V>(f: Found<V>): int
  {
    match f.current
    case None => f.pos
    case Some(c) => if f.dv < |c.prefix| then f.pos - 1 else f.pos - (|c.prefix| + 1)
  }

  /**
   * What a result of `find` says about the tree: the parent is valid, and
   *  - with no current node, the parent has no edge for `key[pos]`;
   *  - at a split, the parent's edge `key[pos-1]` leads to current, whose
   *    prefix agrees with the key for `dv` bytes and then differs or the
   *    key ends;
   *  - otherwise the whole key is consumed exactly at the end of current,
   *    which hangs under `key[pos-len(prefix)-1]`.
   */
  ghost predicate Located<V>(key: seq<byte>, f: Found<V>)
  {
    && ValidNode(f.parent)
    && f.pos <= |key|
    && match f.current
       case None =>
         f.pos < |key| && Next(f.parent, key[f.pos]) == None
       case Some(c) =>
         && 0 <= EdgePos(f) < |key|
         && Next(f.parent, key[EdgePos(f)]) == Some(c)
         && if f.dv < |c.prefix| then
              && 1 <= f.pos && f.pos + f.dv <= |key|
              && c.prefix[..f.dv] == key[f.pos..f.pos + f.dv]
              && (f.pos + f.dv < |key| ==> c.prefix[f.dv] != key[f.pos + f.dv])
            else
              && f.pos == |key| && |c.prefix| < f.pos
              && c.prefix == key[f.pos - |c.prefix|..]
              && (|c.prefix| > 0 ==> f.dv == |c.prefix|)
  }

  /**
   * One run of `find`'s loop (art.go:132-157) from node `n`, where the next
   * unconsumed key byte is `key[pos]` and `dv` is the last divergence.
   */
  function FindFrom<V>(n: Node<V>, key: seq<byte>, pos: nat, dv: nat): (f: Found<V>)
    requires ValidNode(n) && pos < |key|
    ensures Located(key, f)
    ensures pos <= EdgePos(f) < |key|
    ensures EdgePos(f) == pos ==> f.parent == n
    decreases |key| - pos
  {
    ChildValid(n, key[pos]);
    match Next(n, key[pos])
    case None => Found(n, None, pos, dv)
    case Some(c) =>
      var pos1 := pos + 1;
      if |c.prefix| > 0 then
        var d := Divergence(c.prefix, key[pos1..]);
        if |c.prefix| > d then Found(n, Some(c), pos1, d)
        else if pos1 + d == |key| then Found(n, Some(c), pos1 + d, d)
        else FindFrom(c, key, pos1 + d, d)
      else if pos1 == |key| then Found(n, Some(c), pos1, dv)
      else FindFrom(c, key, pos1, dv)
  }

  /** `find` (art.go:126-160); indexing `key[0]` needs a non-empty key. */
  function Find<V>(root: Node<V>, key: seq<byte>): (f: Found<V>)
    requires ValidNode(root) && |key| > 0
  {
    FindFrom(root, key, 0, 0)
  }

  /** `shouldInsert` (art.go:206-208). */
  predicate ShouldInsert<V>(key: seq<byte>, f: Found<V>)
  {
    f.pos < |key| && f.current.None?
  }

  /** `shouldUpdate` (art.go:210-212); it dereferences current once the key is consumed. */
  predicate ShouldUpdate<V>(key: seq<byte>, f: Found<V>)
    requires |key| == f.pos ==> f.current.Some?
  {
    || (|key| == f.pos && f.dv == |f.current.value.prefix|)
    || (|key| == f.pos && |f.current.value.prefix| == 0)
  }

  /** `shouldSplitTwoWay` (art.go:214-216). */
  predicate ShouldSplitTwoWay<V>(key: seq<byte>, f: Found<V>)
  {
    |key| - (f.pos + f.dv) == 0
  }

  /** `shouldSplitThreeWay` (art.go:218-220). */
  predicate ShouldSplitThreeWay<V>(key: seq<byte>, f: Found<V>)
  {
    |key| - (f.pos + f.dv) > 0
  }

  /** `insertNode` (art.go:162-165): a new leaf for the rest of the key under `key[pos]`. */
  function InsertNode<V(==)>(key: seq<byte>, value: V, f: Found<V>): Swapped<V>
    requires E.Valid(f.parent.edges) && f.pos < |key|
  {
    var n := NewNode(E.Node4, key[f.pos + 1..], Some(value));
    SwapNext(f.parent, key[f.pos], None, n)
  }

  /** `updateNode` (art.go:167-174): current's prefix and edge set with the new value. */
  function UpdateNode<V(==)>(key: seq<byte>, value: V, f: Found<V>): Swapped<V>
    requires E.Valid(f.parent.edges) && f.current.Some?
    requires |f.current.value.prefix| + 1 <= f.pos <= |key|
  {
    var c := f.current.value;
    var edgePos := f.pos - (|c.prefix| + 1);
    var n := Node(c.prefix, Some(value), c.edges);
    SwapNext(f.parent, key[edgePos], f.current, n)
  }

  /**
   * `splitTwoWay` (art.go:176-191): a node with the shared part of the
   * prefix and the new value, holding current (its prefix cut after the
   * divergent byte) under that byte.
   */
  function SplitTwoWay<V(==)>(key: seq<byte>, value: V, f: Found<V>): Swapped<V>
    requires E.Valid(f.parent.edges) && f.current.Some?
    requires f.dv < |f.current.value.prefix| && 1 <= f.pos <= |key|
    requires |key| > f.pos ==> f.pos + f.dv <= |key|
  {
    var c := f.current.value;
    var pfx := if |key| > f.pos then key[f.pos..f.pos + f.dv] else [];
    E.NewEdgesEmpty<Node<V>>(E.Node4);
    var n1 := NewNode(E.Node4, pfx, Some(value));
    var n2 := Node(c.prefix[f.dv + 1..], c.value, c.edges);
    SwapNext(f.parent, key[f.pos - 1], f.current, SetNext(n1, c.prefix[f.dv], n2))
  }

  /**
   * `splitThreeWay` (art.go:193-204): a value-less node with the shared
   * part of the prefix and two children, current (cut after the divergent
   * byte) and a new leaf for the rest of the key.  The first `setNext`
   * needs a non-zero byte to leave a valid Node4 for the second.
   */
  function SplitThreeWay<V(==)>(key: seq<byte>, value: V, f: Found<V>): Swapped<V>
    requires E.Valid(f.parent.edges) && f.current.Some?
    requires f.dv < |f.current.value.prefix| && 1 <= f.pos && f.pos + f.dv < |key|
    requires f.current.value.prefix[f.dv] != 0
  {
    var c := f.current.value;
    E.NewEdgesEmpty<Node<V>>(E.Node4);
    var n1 := NewNode(E.Node4, c.prefix[..f.dv], None);
    var n2 := Node(c.prefix[f.dv + 1..], c.value, c.edges);
    var n3 := NewNode(E.Node4, key[f.pos + f.dv + 1..], Some(value));
    SetNextInserts(n1, c.prefix[f.dv], n2);
    var n1' := SetNext(n1, c.prefix[f.dv], n2);
    SwapNext(f.parent, key[f.pos - 1], f.current, SetNext(n1', key[f.pos + f.dv], n3))
  }

  /** The `switch` of `Insert` and `Swap` (art.go:22-31, 65-74); no case leaves `success` false. */
  function Publish<V(==)>(key: seq<byte>, value: V, f: Found<V>): Swapped<V>
    requires Located(key, f)
  {
    if ShouldInsert(key, f) then InsertNode(key, value, f)
    else if ShouldUpdate(key, f) then UpdateNode(key, value, f)
    else if ShouldSplitThreeWay(key, f) then
      ChildValid(f.parent, key[EdgePos(f)]);
      SplitThreeWay(key, value, f)
    else if ShouldSplitTwoWay(key, f) then SplitTwoWay(key, value, f)
    else Swapped(false, f.parent)
  }

  /**
   * The tree below `n` once the parent `find` stops at (searching from `n`
   * with the same `pos` and `dv`) reads as `np`: every node on the way
   * down holds the rebuilt child under the same byte.
   */
  function Graft<V>(n: Node<V>, key: seq<byte>, pos: nat, dv: nat, np: Node<V>): Node<V>
    requires ValidNode(n) && pos < |key|
    decreases |key| - pos
  {
    ChildValid(n, key[pos]);
    match Next(n, key[pos])
    case None => np
    case Some(c) =>
      var pos1 := pos + 1;
      if |c.prefix| > 0 then
        var d := Divergence(c.prefix, key[pos1..]);
        if |c.prefix| > d || pos1 + d == |key| then np
        else SetNext(n, key[pos], Graft(c, key, pos1 + d, d, np))
      else if pos1 == |key| then np
      else SetNext(n, key[pos], Graft(c, key, pos1, dv, np))
  }

  /**
   * One locate-and-publish round of `Insert` and `Swap`: on success the
   * root reads the published parent.
   */
  function Commit<V(==)>(root: Node<V>, key: seq<byte>, value: V): Swapped<V>
    requires ValidNode(root) && |key| > 0
  {
    var s := Publish(key, value, Find(root, key));
    if s.ok then Swapped(true, Graft(root, key, 0, 0, s.node)) else Swapped(false, root)
  }

  /** `Insert` (art.go:16-44) in a sequential run: the first round publishes. */
  function InsertTree<V(==)>(root: Node<V>, key: seq<byte>, value: V): Swapped<V>
    requires ValidNode(root) && |key| > 0
  {
    Commit(root, key, value)
  }

  /**
   * `Lookup` (art.go:90-98) as written: the current node's value once the
   * key is consumed, even when `find` stopped at a split.
   */
  function LookupAsWritten<V>(root: Node<V>, key: seq<byte>): Option<V>
    requires ValidNode(root) && |key| > 0
  {
    var f := Find(root, key);
    if f.current.None? || |key| > f.pos then None else f.current.value.value
  }

  /** The value a result of `find` reports for the key: current's, when the key ends exactly at current. */
  function Reached<V>(key: seq<byte>, f: Found<V>): Option<V>
  {
    if f.current.None? || |key| > f.pos || f.dv < |f.current.value.prefix| then None
    else f.current.value.value
  }

  /** `Lookup`, answering only when the key ends exactly at current (no split). */
  function Lookup<V>(root: Node<V>, key: seq<byte>): Option<V>
    requires ValidNode(root) && |key| > 0
  {
    Reached(key, Find(root, key))
  }

  /**
   * `Swap` (art.go:47-87) as written: it fails when the key ends at a node
   * and `old` is nil, or when `old` is given and differs from the value of
   * whatever node `find` stopped at; otherwise it publishes like `Insert`.
   */
  function SwapAsWritten<V(==)>(root: Node<V>, key: seq<byte>, expected: Option<V>, value: V): Swapped<V>
    requires ValidNode(root) && |key| > 0
  {
    var f := Find(root, key);
    if ShouldUpdate(key, f) && expected.None? then Swapped(false, root)
    else if f.current.Some? && expected.Some? && expected != f.current.value.value then Swapped(false, root)
    else Commit(root, key, value)
  }

  /** `Swap` as a compare-and-swap: it publishes exactly when the key currently reads `expected`. */
  function Swap<V(==)>(root: Node<V>, key: seq<byte>, expected: Option<V>, value: V): Swapped<V>
    requires ValidNode(root) && |key| > 0
  {
    if Lookup(root, key) != expected then Swapped(false, root) else Commit(root, key, value)
  }
}
