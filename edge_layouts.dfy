/**
 * The interface generation of edge sets (edges.go, edges4.go, edges16.go,
 * edges48.go, edges256.go): one Go type per layout behind the `edges`
 * interface, each a fixed-capacity map from a byte to a child held in
 * fixed arrays that `setNext` updates in place.
 *
 * Each layout is a class over its arrays with a `Valid` invariant and a
 * ghost `Map` abstraction; `setNext` refines the map update, `copy` and
 * `upgrade` keep the map.  The child type `C` stands for `*node`, whose
 * nil is `None`.  The interface itself, with its dynamic dispatch, is not
 * a member: each layout stands alone, and `upgrade` names the next class
 * up the ladder 4, 16, 48, 256.
 */
module EdgeLayouts {
  import opened Types
  import opened Slots
  import E = NodeEdges

  // ---------------------------------------------------------------------
  // edges.go: the leaf sentinel
  // ---------------------------------------------------------------------

  /**
   * `edgesLeaf` (edges.go:12-37): the stateless edge set of a node without
   * children.  It stores nothing, so `setNext` is dropped, and it reports
   * itself full so that a writer upgrades it first.
   */
  datatype Leaf = Leaf
  {
    /** The empty map a leaf stands for. */
    function Map<C>(): map<byte, C>
    {
      map[]
    }

    /** `next` (edges.go:20-22): no byte has a child. */
    function Next<C>(b: byte): (r: Option<C>)
      ensures r == MapGet(Map(), b)
    {
      None
    }

    /** `setNext` (edges.go:24-25): a no-op, so the map stays empty. */
    function SetNext<C>(b: byte, c: C): (r: Leaf)
      ensures r == this && r.Map<C>() == map[]
    {
      this
    }

    /** `copy` (edges.go:27-29): the receiver itself, which is safe as it holds no state. */
    function Copy(): Leaf
    {
      this
    }

    /** `full` (edges.go:35-37). */
    function Full(): bool
    {
      true
    }

    /** `upgrade` (edges.go:31-33): a fresh, empty `edges4`. */
    method Upgrade<C>() returns (r: Edges4<C>)
      ensures fresh(r) && fresh(r.keys) && fresh(r.edges)
      ensures r.Valid() && r.Map() == Map() && r.children == 0
    {
      r := new Edges4();
    }
  }

  // ---------------------------------------------------------------------
  // edges4.go
  // ---------------------------------------------------------------------

  /** `edges4` (edges4.go:5-9): four sorted key bytes and their children. */
  class Edges4<C> {
    var keys: array<byte>
    var edges: array<Option<C>>
    var children: nat

    /** The first `children` slots hold distinct non-zero keys in ascending order; the rest are free. */
    ghost predicate Valid()
      reads this, keys, edges
    {
      keys.Length == 4 && Sorted(keys[..], edges[..], children)
    }

    /** The byte-to-child map the slots stand for. */
    ghost function Map(): map<byte, C>
      reads this, keys, edges
      requires Valid()
    {
      Pairs(keys[..], edges[..], children)
    }

    /** `newEdges4` (edges4.go:11-13): every slot free. */
    constructor ()
      ensures Valid() && Map() == map[] && children == 0
      ensures fresh(keys) && fresh(edges)
    {
      keys := new byte[4](_ => 0);
      edges := new Option<C>[4](_ => None);
      children := 0;
      new;
      assert Pairs(keys[..], edges[..], 0) == map[];
    }

    /** `next` (edges4.go:25-32): the child of the first slot whose key is `b`, else nil. */
    function Next(b: byte): (r: Option<C>)
      reads this, keys, edges
      requires Valid()
      ensures r == MapGet(Map(), b)
    {
      IndexBytePacked(keys[..], edges[..], children, b);
      var i := IndexByte(keys[..], b);
      if i < 0 then None else edges[i]
    }

    /** `full` (edges4.go:80-82). */
    function Full(): bool
      reads this
    {
      children == 4
    }

    /** `full` holds exactly when four bytes are stored. */
    lemma FullHolds()
      requires Valid()
      ensures Full() <==> |Map()| == 4
    {
      PairsCard(keys[..], edges[..], children);
    }

    /**
     * `search` (edges4.go:50-57): for a non-zero byte, the position that
     * keeps the keys sorted: every key before it is smaller, the key at it
     * (if in use) is not.
     */
    method Search(b: byte) returns (i: nat)
      requires Valid() && b != 0
      ensures i <= children
      ensures forall j :: 0 <= j < i ==> keys[j] < b
      ensures i < children ==> keys[i] >= b
    {
      i := SearchKeys(keys, children, b);
      SearchSorted(keys[..], edges[..], children, b);
    }

    /**
     * `setNext` (edges4.go:34-48): overwrite the child of a stored byte, or
     * shift the slots from the search position right and insert `b` there.
     * The map gains `b` and nothing else changes; the keys stay sorted.
     */
    method SetNext(b: byte, c: C)
      requires Valid() && b != 0
      requires b in Map() || !Full()
      modifies this, keys, edges
      ensures Valid() && keys == old(keys) && edges == old(edges)
      ensures Map() == old(Map())[b := c]
      ensures children == if b in old(Map()) then old(children) else old(children) + 1
    {
      var i := SearchKeys(keys, children, b);
      if b in Map() {
        SearchPresent(keys[..], edges[..], children, b);
      } else {
        SortedInsert(keys[..], edges[..], children, b, c);
        SearchSorted(keys[..], edges[..], children, b);
        if i < children {
          PairsAt(keys[..], edges[..], children, i);
        }
      }
      if keys[i] == b {
        Overwrite(keys[..], edges[..], children, i, c);
        edges[i] := Some(c);
      } else {
        ShiftIn(keys, i, b);
        ShiftIn(edges, i, Some(c));
        children := children + 1;
      }
    }

    /** `copy` (edges4.go:59-68): a new `edges4` holding copies of the arrays and the count. */
    method Copy() returns (r: Edges4<C>)
      requires Valid()
      ensures fresh(r) && fresh(r.keys) && fresh(r.edges)
      ensures r.keys[..] == keys[..] && r.edges[..] == edges[..] && r.children == children
      ensures r.Valid() && r.Map() == Map()
    {
      ghost var packed, slots := keys[..], edges[..];
      r := new Edges4();
      forall i | 0 <= i < 4 {
        r.keys[i] := keys[i];
      }
      forall i | 0 <= i < 4 {
        r.edges[i] := edges[i];
      }
      r.children := children;
      assert r.keys[..] == packed && r.edges[..] == slots;
    }

    /**
     * `upgrade` (edges4.go:70-78): `setNext` each of the four slots into a
     * new `edges16`, which then maps the same bytes to the same children.
     */
    method Upgrade() returns (r: Edges16<C>)
      requires Valid() && Full()
      ensures fresh(r) && fresh(r.keys) && fresh(r.edges)
      ensures r.Valid() && r.Map() == Map() && r.children == children
    {
      r := new Edges16();
      assert Pairs(keys[..], edges[..], 0) == map[];
      for i := 0 to 4
        invariant fresh(r) && fresh(r.keys) && fresh(r.edges)
        invariant r.Valid() && r.children == i
        invariant r.Map() == Pairs(keys[..], edges[..], i)
      {
        PairsHas(keys[..], edges[..], i, keys[i]);
        PairsSnoc(keys[..], edges[..], i);
        r.SetNext(keys[i], edges[i].value);
      }
    }
  }

  // ---------------------------------------------------------------------
  // edges16.go
  // ---------------------------------------------------------------------

  /** `edges16` (edges16.go:7-11): sixteen sorted key bytes and their children. */
  class Edges16<C> {
    var keys: array<byte>
    var edges: array<Option<C>>
    var children: nat

    /** The first `children` slots hold distinct non-zero keys in ascending order; the rest are free. */
    ghost predicate Valid()
      reads this, keys, edges
    {
      keys.Length == 16 && Sorted(keys[..], edges[..], children)
    }

    /** The byte-to-child map the slots stand for. */
    ghost function Map(): map<byte, C>
      reads this, keys, edges
      requires Valid()
    {
      Pairs(keys[..], edges[..], children)
    }

    /** `newEdges16` (edges16.go:13-15): every slot free. */
    constructor ()
      ensures Valid() && Map() == map[] && children == 0
      ensures fresh(keys) && fresh(edges)
    {
      keys := new byte[16](_ => 0);
      edges := new Option<C>[16](_ => None);
      children := 0;
      new;
      assert Pairs(keys[..], edges[..], 0) == map[];
    }

    /** `next` (edges16.go:21-28): the child of the first slot whose key is `b`, else nil. */
    function Next(b: byte): (r: Option<C>)
      reads this, keys, edges
      requires Valid()
      ensures r == MapGet(Map(), b)
    {
      IndexBytePacked(keys[..], edges[..], children, b);
      var i := IndexByte(keys[..], b);
      if i < 0 then None else edges[i]
    }

    /** `full` (edges16.go:77-79). */
    function Full(): bool
      reads this
    {
      children == 16
    }

    /** `full` holds exactly when sixteen bytes are stored. */
    lemma FullHolds()
      requires Valid()
      ensures Full() <==> |Map()| == 16
    {
      PairsCard(keys[..], edges[..], children);
    }

    /** `search` (edges16.go:46-53): the sorted insertion point of a non-zero byte. */
    method Search(b: byte) returns (i: nat)
      requires Valid() && b != 0
      ensures i <= children
      ensures forall j :: 0 <= j < i ==> keys[j] < b
      ensures i < children ==> keys[i] >= b
    {
      i := SearchKeys(keys, children, b);
      SearchSorted(keys[..], edges[..], children, b);
    }

    /**
     * `setNext` (edges16.go:30-44): overwrite the child of a stored byte, or
     * shift right from the search position and insert `b` there.
     */
    method SetNext(b: byte, c: C)
      requires Valid() && b != 0
      requires b in Map() || !Full()
      modifies this, keys, edges
      ensures Valid() && keys == old(keys) && edges == old(edges)
      ensures Map() == old(Map())[b := c]
      ensures children == if b in old(Map()) then old(children) else old(children) + 1
    {
      var i := SearchKeys(keys, children, b);
      if b in Map() {
        SearchPresent(keys[..], edges[..], children, b);
      } else {
        SortedInsert(keys[..], edges[..], children, b, c);
        SearchSorted(keys[..], edges[..], children, b);
        if i < children {
          PairsAt(keys[..], edges[..], children, i);
        }
      }
      if keys[i] == b {
        Overwrite(keys[..], edges[..], children, i, c);
        edges[i] := Some(c);
      } else {
        ShiftIn(keys, i, b);
        ShiftIn(edges, i, Some(c));
        children := children + 1;
      }
    }

    /** `copy` (edges16.go:55-64): a new `edges16` holding copies of the arrays and the count. */
    method Copy() returns (r: Edges16<C>)
      requires Valid()
      ensures fresh(r) && fresh(r.keys) && fresh(r.edges)
      ensures r.keys[..] == keys[..] && r.edges[..] == edges[..] && r.children == children
      ensures r.Valid() && r.Map() == Map()
    {
      ghost var packed, slots := keys[..], edges[..];
      r := new Edges16();
      forall i | 0 <= i < 16 {
        r.keys[i] := keys[i];
      }
      forall i | 0 <= i < 16 {
        r.edges[i] := edges[i];
      }
      r.children := children;
      assert r.keys[..] == packed && r.edges[..] == slots;
    }

    /**
     * The loop of `upgrade` (edges16.go:69-72): index entry `keys[i]` of the
     * new table becomes i + 1 and slot i takes `edges[i]`, for i < children.
     */
    method Spread48() returns (r: Edges48<C>)
      requires Valid()
      ensures fresh(r) && fresh(r.keys) && fresh(r.edges) && r.children == 0
      ensures r.keys[..] == Spread(keys[..], children) && r.edges[..] == SpreadKids(edges[..], children)
    {
      r := new Edges48();
      for i := 0 to children
        invariant fresh(r.keys) && fresh(r.edges) && r.keys.Length == 256 && r.edges.Length == 48
        invariant r.children == 0
        invariant forall x :: 0 <= x < 256 ==> r.keys[x] == LastPos(keys[..], i, x)
        invariant forall j :: 0 <= j < 48 ==> r.edges[j] == if j < i then edges[j] else None
      {
        r.keys[keys[i]] := i + 1;
        r.edges[i] := edges[i];
      }
    }

    /**
     * `upgrade` as edges16.go:66-75 writes it: the new `edges48` gets the
     * table and slots but keeps the count at 0, so a non-empty set upgrades
     * to one that breaks the `edges48` invariant.
     */
    method UpgradeAsWritten() returns (r: Edges48<C>)
      requires Valid()
      ensures fresh(r) && fresh(r.keys) && fresh(r.edges) && r.children == 0
      ensures r.keys[..] == Spread(keys[..], children) && r.edges[..] == SpreadKids(edges[..], children)
      ensures children > 0 ==> !r.Valid()
    {
      r := Spread48();
      assert children > 0 ==> r.edges[0].Some?;
    }

    /**
     * `upgrade` with the count carried over, as node.go:254 does: a new
     * `edges48` that maps the same bytes to the same children.
     */
    method Upgrade() returns (r: Edges48<C>)
      requires Valid()
      ensures fresh(r) && fresh(r.keys) && fresh(r.edges)
      ensures r.Valid() && r.Map() == Map() && r.children == children
    {
      r := Spread48();
      r.children := children;
      SpreadIndexed(keys[..], edges[..], children);
    }
  }

  // ---------------------------------------------------------------------
  // edges48.go
  // ---------------------------------------------------------------------

  /**
   * `edges48` (edges48.go:3-7): a 256-entry index table over 48 slots;
   * entry 0 means absent and entry k means slot k - 1.
   */
  class Edges48<C> {
    var keys: array<byte>
    var edges: array<Option<C>>
    var children: nat

    /**
     * The non-zero index entries are distinct and lie in 1..children, and
     * exactly the first `children` slots hold a child, each named by a byte.
     */
    ghost predicate Valid()
      reads this, keys, edges
    {
      keys.Length == 256 && Indexed(keys[..], edges[..], children)
    }

    /** The byte-to-child map the table stands for. */
    ghost function Map(): map<byte, C>
      reads this, keys, edges
      requires Valid()
    {
      IndexMap(keys[..], edges[..])
    }

    /** `newEdges48` (edges48.go:9-11): every entry 0, every slot free. */
    constructor ()
      ensures Valid() && Map() == map[] && children == 0
      ensures fresh(keys) && fresh(edges)
    {
      keys := new byte[256](_ => 0);
      edges := new Option<C>[48](_ => None);
      children := 0;
      new;
      assert IndexMap(keys[..], edges[..]) == map[];
    }

    /** `next` (edges48.go:17-25): nil for entry 0, else the slot the entry names. */
    function Next(b: byte): (r: Option<C>)
      reads this, keys, edges
      requires Valid()
      ensures r == MapGet(Map(), b)
    {
      if keys[b] == 0 then None else edges[keys[b] - 1]
    }

    /** `full` (edges48.go:61-63). */
    function Full(): bool
      reads this
    {
      children == 48
    }

    /** `full` holds exactly when 48 bytes are stored. */
    lemma FullHolds()
      requires Valid()
      ensures Full() <==> |Map()| == 48
    {
      IndexedCard(keys[..], edges[..], children);
    }

    /**
     * `setNext` (edges48.go:27-36): overwrite the slot of a stored byte, or
     * point the byte's entry at slot `children` and fill that slot.
     */
    method SetNext(b: byte, c: C)
      requires Valid()
      requires b in Map() || !Full()
      modifies this, keys, edges
      ensures Valid() && keys == old(keys) && edges == old(edges)
      ensures Map() == old(Map())[b := c]
      ensures children == if b in old(Map()) then old(children) else old(children) + 1
    {
      assert b in Map() <==> keys[b] != 0;
      if keys[b] != 0 {
        IndexedOverwrite(keys[..], edges[..], children, b, c);
        edges[keys[b] - 1] := Some(c);
      } else {
        IndexedAdd(keys[..], edges[..], children, b, c);
        keys[b] := children + 1;
        edges[children] := Some(c);
        children := children + 1;
      }
    }

    /** `copy` (edges48.go:38-47): a new `edges48` holding copies of the table, the slots and the count. */
    method Copy() returns (r: Edges48<C>)
      requires Valid()
      ensures fresh(r) && fresh(r.keys) && fresh(r.edges)
      ensures r.keys[..] == keys[..] && r.edges[..] == edges[..] && r.children == children
      ensures r.Valid() && r.Map() == Map()
    {
      ghost var index, slots := keys[..], edges[..];
      r := new Edges48();
      forall i | 0 <= i < 256 {
        r.keys[i] := keys[i];
      }
      forall i | 0 <= i < 48 {
        r.edges[i] := edges[i];
      }
      r.children := children;
      assert r.keys[..] == index && r.edges[..] == slots;
    }

    /**
     * `upgrade` (edges48.go:49-59): slot b of a new `edges256` takes the
     * indexed child of b, so every byte keeps its child.  The new count
     * stays 0, as written; `edges256` never reads it.
     */
    method Upgrade() returns (r: Edges256<C>)
      requires Valid()
      ensures fresh(r) && fresh(r.edges)
      ensures r.Valid() && r.Map() == Map() && r.children == 0
    {
      r := new Edges256();
      for i := 0 to 256
        invariant fresh(r.edges) && r.edges.Length == 256 && r.children == 0
        invariant forall x :: 0 <= x < i ==> r.edges[x] == IndexNext(keys[..], edges[..], x)
        invariant forall x :: i <= x < 256 ==> r.edges[x].None?
      {
        if keys[i] > 0 {
          r.edges[i] := edges[keys[i] - 1];
        }
      }
      assert r.edges[..] == Flatten(keys[..], edges[..]);
      FlattenMap(keys[..], edges[..]);
    }
  }

  // ---------------------------------------------------------------------
  // edges256.go
  // ---------------------------------------------------------------------

  /** `edges256` (edges256.go:3-6): one slot per byte and a `uint8` count. */
  class Edges256<C> {
    var edges: array<Option<C>>
    var children: nat

    ghost predicate Valid()
      reads this, edges
    {
      edges.Length == 256 && children < 256
    }

    /** The byte-to-child map the slots stand for. */
    ghost function Map(): map<byte, C>
      reads this, edges
      requires Valid()
    {
      DirectMap(edges[..])
    }

    /** `newEdges256` (edges256.go:8-10): every slot free. */
    constructor ()
      ensures Valid() && Map() == map[] && children == 0
      ensures fresh(edges) && forall b :: 0 <= b < 256 ==> edges[b].None?
    {
      edges := new Option<C>[256](_ => None);
      children := 0;
      new;
      assert DirectMap(edges[..]) == map[];
    }

    /** `next` (edges256.go:16-18): slot `b`. */
    function Next(b: byte): (r: Option<C>)
      reads this, edges
      requires Valid()
      ensures r == MapGet(Map(), b)
    {
      edges[b]
    }

    /** `full` (edges256.go:41-43): 256 slots never run out. */
    function Full(): bool
    {
      false
    }

    /** `full` never holds, though the slots can map every byte. */
    lemma FullHolds()
      requires Valid()
      ensures !Full() && |Map()| <= 256
    {
      DirectCard(edges[..]);
    }

    /**
     * `setNext` (edges256.go:20-25): write slot `b`, counting it when it was
     * nil; the count is a `uint8` and wraps.
     */
    method SetNext(b: byte, c: C)
      requires Valid()
      modifies this, edges
      ensures Valid() && edges == old(edges)
      ensures Map() == old(Map())[b := c]
      ensures children == if b in old(Map()) then old(children) else (old(children) + 1) % 256
    {
      if edges[b].None? {
        children := (children + 1) % 256;
      }
      edges[b] := Some(c);
      assert DirectMap(edges[..]) == old(DirectMap(edges[..]))[b := c];
    }

    /** `copy` (edges256.go:27-35): a new `edges256` holding a copy of the slots and the count. */
    method Copy() returns (r: Edges256<C>)
      requires Valid()
      ensures fresh(r) && fresh(r.edges)
      ensures r.edges[..] == edges[..] && r.children == children
      ensures r.Valid() && r.Map() == Map()
    {
      r := new Edges256();
      forall i | 0 <= i < 256 {
        r.edges[i] := edges[i];
      }
      r.children := children;
    }

    /** `upgrade` (edges256.go:37-39): the top of the ladder, the receiver itself. */
    method Upgrade() returns (r: Edges256<C>)
      requires Valid()
      ensures r == this && r.Valid() && r.Map() == Map()
    {
      r := this;
    }
  }

  /**
   * What the count `upgrade` leaves behind does to the next insertion
   * (edges16.go:66-75 followed by edges48.go:27-36): with the count at 0,
   * `setNext` of a new byte claims slot 0, which already holds the child of
   * the smallest stored byte; both bytes then lead to the new child.
   */
  lemma UpgradeAsWrittenClobbers<C>(e: E.EdgeSet<C>, b: byte, c: C)
    requires e.ntype == E.Node16 && E.Valid(e) && e.children > 0
    requires b !in E.Abs(e)
    ensures var u := E.SetNext48(E.Upgrade16(e), b, Some(c));
      && IndexNext(u.keys, u.kids, b) == Some(c)
      && IndexNext(u.keys, u.kids, e.keys[0]) == Some(c)
      && e.keys[0] in E.Abs(e) && e.keys[0] != b
  {
    var n := e.children;
    LastPosAt(e.keys, n, 0);
    PairsAt(e.keys, e.kids, n, 0);
    SpreadLookup(e.keys, e.kids, n, b);
  }
}
