/**
 * node.go's `node` (node.go:25-54, 87-141): a compressed prefix, a value
 * and an edge set.  Nodes are values here: a node whose edge cell the Go
 * code replaces (`swapNext`) or overwrites (`setNext`) is returned as a new
 * node value with the new edge set.
 */
module Nodes {
  import opened Types
  import E = NodeEdges

  /** node.go's `node`. */
  datatype Node<V> = Node(prefix: seq<byte>, value: Option<V>, edges: E.EdgeSet<Node<V>>)

  /** `newNode` for one of the four layouts: the given prefix and value, no children. */
  function NewNode<V>(size: nat, prefix: seq<byte>, value: Option<V>): Node<V>
    requires size <= E.Node256
  {
    Node(prefix, value, E.NewEdges(size))
  }

  /** `node.next`: the child under `b`, read through the edge set. */
  function Next<V>(n: Node<V>, b: byte): (r: Option<Node<V>>)
    requires E.Shaped(n.edges)
    ensures r.Some? ==> r in n.edges.kids
  {
    E.Next(n.edges, b)
  }

  /**
   * The edge set `swapNext` and `setNext` write into: an `upgrade` when the
   * set is full and has no child under `b`, otherwise the set itself (the
   * Go `copy`, which by value is the same set).
   */
  function Room<V>(e: E.EdgeSet<Node<V>>, b: byte): (r: E.EdgeSet<Node<V>>)
    requires E.Valid(e)
    ensures E.Valid(r) && E.Abs(r) == E.Abs(e)
    ensures b in E.Abs(r) || !E.Full(r)
    ensures E.CanSet(r, b)
    ensures r.ntype >= e.ntype
  {
    E.NextAbs(e, b);
    if E.Full(e) && E.Next(e, b).None? then
      E.UpgradeAbs(e);
      var u := E.Upgrade(e);
      E.ValidCanSet(u, b);
      u
    else
      E.ValidCanSet(e, b);
      e
  }

  /**
   * Writing `b` into the set `Room` picks keeps it valid and updates the
   * map at `b` alone; the small layouts need a new `b` to be non-zero.
   */
  lemma RoomSetNext<V>(e: E.EdgeSet<Node<V>>, b: byte, next: Node<V>)
    requires E.Valid(e)
    requires e.ntype <= E.Node16 && b !in E.Abs(e) ==> b != 0
    ensures E.Valid(E.SetNext(Room(e, b), b, next))
    ensures E.Abs(E.SetNext(Room(e, b), b, next)) == E.Abs(e)[b := next]
  {
    E.SetNextAbs(Room(e, b), b, next);
  }

  /** The outcome of `swapNext`: whether it published, and the node as it now reads. */
  datatype Swapped<V> = Swapped(ok: bool, node: Node<V>)

  /**
   * `swapNext` (node.go:87-116): publish `next` under `b` if the current
   * child there is `existing`; otherwise fail and change nothing.  The
   * compare-and-swap of the edge cell always succeeds in a sequential run.
   */
  function SwapNext<V(==)>(n: Node<V>, b: byte, existing: Option<Node<V>>, next: Node<V>): Swapped<V>
    requires E.Valid(n.edges)
  {
    E.ValidShaped(n.edges);
    if Next(n, b) != existing then Swapped(false, n)
    else Swapped(true, n.(edges := E.SetNext(Room(n.edges, b), b, next)))
  }

  /** `setNext` (node.go:118-141): insert `next` under `b`, overwriting the node's edge cell in place. */
  function SetNext<V>(n: Node<V>, b: byte, next: Node<V>): Node<V>
    requires E.Valid(n.edges)
  {
    n.(edges := E.SetNext(Room(n.edges, b), b, next))
  }

  /**
   * The tree invariant: every edge set is valid, every prefix byte is
   * non-zero (prefix bytes become Node4 keys when a node is split) and
   * every child is valid.
   */
  ghost predicate ValidNode<V>(n: Node<V>)
    decreases n
  {
    && E.Valid(n.edges)
    && (forall i :: 0 <= i < |n.prefix| ==> n.prefix[i] != 0)
    && (forall b: byte :: E.Next(n.edges, b).Some? ==> ValidNode(E.Next(n.edges, b).value))
  }

  /** The children of a valid node are valid. */
  lemma ChildValid<V>(n: Node<V>, b: byte)
    requires ValidNode(n)
    ensures E.Shaped(n.edges)
    ensures Next(n, b).Some? ==> ValidNode(Next(n, b).value)
  {
    E.ValidShaped(n.edges);
  }

  /** A fresh node has no children; it is valid when its prefix has no zero byte. */
  lemma NewNodeEmpty<V>(size: nat, prefix: seq<byte>, value: Option<V>)
    requires size <= E.Node256
    requires forall i :: 0 <= i < |prefix| ==> prefix[i] != 0
    ensures E.Valid(NewNode(size, prefix, value).edges)
    ensures NewNode(size, prefix, value).edges.ntype == size
    ensures forall b :: Next(NewNode(size, prefix, value), b) == None
    ensures ValidNode(NewNode(size, prefix, value))
  {
    E.NewEdgesEmpty<Node<V>>(size);
    var n := NewNode(size, prefix, value);
    forall b: byte
      ensures Next(n, b) == None
    {
      E.NextAbs(n.edges, b);
    }
  }

  /**
   * `setNext` on a valid node, for a byte the small layouts can hold, keeps
   * prefix and value, publishes `next` under `b` and leaves every other
   * byte's child alone, growing the edge set when it is full.
   */
  lemma SetNextInserts<V>(n: Node<V>, b: byte, next: Node<V>)
    requires E.Valid(n.edges)
    requires n.edges.ntype <= E.Node16 && b !in E.Abs(n.edges) ==> b != 0
    ensures SetNext(n, b, next).prefix == n.prefix && SetNext(n, b, next).value == n.value
    ensures E.Valid(SetNext(n, b, next).edges)
    ensures E.Abs(SetNext(n, b, next).edges) == E.Abs(n.edges)[b := next]
    ensures forall x :: Next(SetNext(n, b, next), x) == if x == b then Some(next) else Next(n, x)
    ensures SetNext(n, b, next).edges.ntype >= n.edges.ntype
  {
    var e := Room(n.edges, b);
    E.SetNextAbs(e, b, next);
    var m := SetNext(n, b, next);
    forall x: byte
      ensures Next(m, x) == if x == b then Some(next) else Next(n, x)
    {
      SetNextAt(n, b, next, x);
    }
  }

  lemma SetNextAt<V>(n: Node<V>, b: byte, next: Node<V>, x: byte)
    requires E.Valid(n.edges)
    requires n.edges.ntype <= E.Node16 && b !in E.Abs(n.edges) ==> b != 0
    ensures E.Valid(SetNext(n, b, next).edges)
    ensures Next(SetNext(n, b, next), x) == if x == b then Some(next) else Next(n, x)
  {
    var e := Room(n.edges, b);
    E.SetNextAbs(e, b, next);
    E.NextAbs(n.edges, x);
    E.NextAbs(SetNext(n, b, next).edges, x);
  }

  /** `setNext` of a valid child into a valid node leaves a valid node. */
  lemma SetNextValid<V>(n: Node<V>, b: byte, next: Node<V>)
    requires ValidNode(n) && ValidNode(next)
    requires n.edges.ntype <= E.Node16 && b !in E.Abs(n.edges) ==> b != 0
    ensures ValidNode(SetNext(n, b, next))
  {
    SetNextInserts(n, b, next);
    var m := SetNext(n, b, next);
    forall x: byte | E.Next(m.edges, x).Some?
      ensures ValidNode(E.Next(m.edges, x).value)
    {
      ChildValid(n, x);
    }
  }

  /**
   * `swapNext` succeeds exactly when the child under `b` is `existing`; a
   * failure changes nothing, and after a success the node keeps its prefix
   * and value, `next` is the child under `b` and every other byte keeps
   * its child.
   */
  lemma SwapNextPublishes<V>(n: Node<V>, b: byte, existing: Option<Node<V>>, next: Node<V>)
    requires E.Valid(n.edges)
    ensures E.Shaped(n.edges)
    ensures SwapNext(n, b, existing, next).ok <==> Next(n, b) == existing
    ensures !SwapNext(n, b, existing, next).ok ==> SwapNext(n, b, existing, next).node == n
    ensures SwapNext(n, b, existing, next).ok ==> SwapNext(n, b, existing, next).node == SetNext(n, b, next)
    ensures SwapNext(n, b, existing, next).ok && (n.edges.ntype <= E.Node16 && b !in E.Abs(n.edges) ==> b != 0) ==>
      var m := SwapNext(n, b, existing, next).node;
      m.prefix == n.prefix && m.value == n.value && E.Valid(m.edges) &&
      E.Abs(m.edges) == E.Abs(n.edges)[b := next] &&
      forall x :: Next(m, x) == if x == b then Some(next) else Next(n, x)
  {
    E.ValidShaped(n.edges);
    if Next(n, b) == existing && (n.edges.ntype <= E.Node16 && b !in E.Abs(n.edges) ==> b != 0) {
      SetNextInserts(n, b, next);
    }
  }

  /**
   * The value stored under the key `k`, read below node `n` (whose own key
   * has already been consumed): take the edge for `k[0]`, require the
   * child's whole prefix to follow, and continue below the child.
   */
  ghost function Get<V>(n: Node<V>, k: seq<byte>): Option<V>
    requires ValidNode(n)
    decreases n
  {
    if k == [] then n.value
    else
      ChildValid(n, k[0]);
      match Next(n, k[0])
      case None => None
      case Some(c) =>
        if c.prefix <= k[1..] then Get(c, k[1 + |c.prefix|..]) else None
  }
}
