/**
 * node.go's tag-dispatched `edges` struct (node.go:18-23, 56-326) as the
 * object the Go code updates in place: a layout tag, a key array, a slot
 * array and a child count.  Every method is proved against the value model
 * in NodeEdges: `Value()` is the struct read as an `EdgeSet`, and each
 * method leaves `Value()` equal to the matching function of its old value.
 * The layout invariant and the byte-to-child map are then NodeEdges'
 * `Valid` and `Abs`, whose lemmas say what each operation does to the map.
 *
 * `swapNext` and `setNext` (node.go:87-141) act on a node's edge cell; here
 * they are methods of the edge struct the cell holds.
 */
module EdgeStruct {
  import opened Types
  import opened Slots
  import E = NodeEdges
  import Nodes

  /** node.go's `edges`. */
  class Edges<V(==)> {
    var ntype: nat
    var keys: array<byte>
    var edges: array<Option<Nodes.Node<V>>>
    var children: nat

    /** The struct read as a value. */
    function Value(): E.EdgeSet<Nodes.Node<V>>
      reads this, keys, edges
    {
      E.EdgeSet(ntype, keys[..], edges[..], children)
    }

    ghost predicate Valid()
      reads this, keys, edges
    {
      E.Valid(Value())
    }

    /** The byte-to-child map the struct stands for. */
    ghost function Map(): map<byte, Nodes.Node<V>>
      reads this, keys, edges
      requires Valid()
    {
      E.Abs(Value())
    }

    /** `make` of the two slices, as `newEdges4/16/48/256` and `copy` do (node.go:56-85, 315-320). */
    constructor Blank(ntype: nat, nkeys: nat, nslots: nat)
      ensures this.ntype == ntype && children == 0
      ensures keys.Length == nkeys && edges.Length == nslots
      ensures forall i :: 0 <= i < nkeys ==> keys[i] == 0
      ensures forall i :: 0 <= i < nslots ==> edges[i].None?
      ensures fresh(keys) && fresh(edges)
    {
      this.ntype := ntype;
      keys := new byte[nkeys](_ => 0);
      edges := new Option<Nodes.Node<V>>[nslots](_ => None);
      children := 0;
    }

    /**
     * The empty edge struct of layout `size`, as `newNode` picks it
     * (node.go:31-50, 56-85); it is valid and maps nothing.
     */
    static method NewEdges(size: nat) returns (r: Edges<V>)
      requires size <= E.Node256
      ensures fresh(r) && fresh(r.keys) && fresh(r.edges)
      ensures r.Value() == E.NewEdges(size)
      ensures r.Valid() && r.Map() == map[]
    {
      if size == E.Node4 {
        r := new Edges.Blank(E.Node4, 4, 4);
      } else if size == E.Node16 {
        r := new Edges.Blank(E.Node16, 16, 16);
      } else if size == E.Node48 {
        r := new Edges.Blank(E.Node48, 256, 48);
      } else {
        r := new Edges.Blank(E.Node256, 0, 256);
      }
      assert r.Value() == E.NewEdges(size);
      E.NewEdgesEmpty<Nodes.Node<V>>(size);
    }

    // -------------------------------------------------------------------
    // Lookups
    // -------------------------------------------------------------------

    /** `next4` (node.go:156-164): the slot of the first of the four keys equal to `b`. */
    method Next4(b: byte) returns (r: Option<Nodes.Node<V>>)
      requires keys.Length == 4 && edges.Length == 4
      ensures r == E.Next4(Value(), b)
    {
      for i := 0 to 4
        invariant forall j :: 0 <= j < i ==> keys[j] != b
      {
        if keys[i] == b {
          return edges[i];
        }
      }
      return None;
    }

    /**
     * `next` (node.go:143-154, 166-190): dispatch on the layout; on a valid
     * struct the answer is the map's child for every byte.
     */
    method Next(b: byte) returns (r: Option<Nodes.Node<V>>)
      requires E.Shaped(Value())
      ensures r == E.Next(Value(), b)
      ensures Valid() ==> r == MapGet(Map(), b)
    {
      if ntype == E.Node4 {
        r := Next4(b);
      } else if ntype == E.Node16 {
        r := E.Next16(Value(), b);
      } else if ntype == E.Node48 {
        r := if keys[b] == 0 then None else edges[keys[b] - 1];
      } else {
        r := edges[b];
      }
      if Valid() {
        E.NextAbs(Value(), b);
      }
    }

    /** `full` (node.go:301-312). */
    function Full(): bool
      reads this
    {
      if ntype == E.Node4 then children == 4
      else if ntype == E.Node16 then children == 16
      else if ntype == E.Node48 then children == 48
      else false
    }

    // -------------------------------------------------------------------
    // In-place insertion
    // -------------------------------------------------------------------

    /** `setNext4` (node.go:192-204): overwrite the first slot keyed `b`, else append at `children`. */
    method SetNext4(b: byte, c: Option<Nodes.Node<V>>)
      requires keys.Length == 4 && edges.Length == 4
      requires IndexByte(keys[..], b) >= 0 || children < 4
      modifies this, keys, edges
      ensures keys == old(keys) && edges == old(edges)
      ensures Value() == E.SetNext4(old(Value()), b, c)
    {
      for i := 0 to 4
        invariant forall j :: 0 <= j < i ==> keys[j] != b
      {
        if keys[i] == b {
          edges[i] := c;
          return;
        }
      }
      keys[children] := b;
      edges[children] := c;
      children := children + 1;
    }

    /**
     * `setNext16` (node.go:206-222): overwrite at the `search` position, or
     * move slots 15 down to p + 1 one place right and insert `b` at p.
     */
    method SetNext16(b: byte, c: Option<Nodes.Node<V>>)
      requires keys.Length == 16 && edges.Length == 16
      requires Search(keys[..], children, b) < 16
      modifies this, keys, edges
      ensures keys == old(keys) && edges == old(edges)
      ensures Value() == E.SetNext16(old(Value()), b, c)
    {
      var p := SearchKeys(keys, children, b);
      if keys[p] == b {
        edges[p] := c;
        return;
      }
      ShiftIn(keys, p, b);
      ShiftIn(edges, p, c);
      children := children + 1;
    }

    /** `setNext48` (node.go:224-233): overwrite the indexed slot, or claim slot `children` for `b`. */
    method SetNext48(b: byte, c: Option<Nodes.Node<V>>)
      requires edges.Length == 48 && IndexInRange(keys[..], 48)
      requires keys[b] != 0 || children < 48
      modifies this, keys, edges
      ensures keys == old(keys) && edges == old(edges)
      ensures Value() == E.SetNext48(old(Value()), b, c)
    {
      if keys[b] != 0 {
        edges[keys[b] - 1] := c;
        return;
      }
      keys[b] := children + 1;
      edges[children] := c;
      children := children + 1;
    }

    /** `setNext256` (node.go:235-240): write slot `b`, counting it in a `uint8` when it was nil. */
    method SetNext256(b: byte, c: Option<Nodes.Node<V>>)
      requires edges.Length == 256
      modifies this, edges
      ensures keys == old(keys) && edges == old(edges)
      ensures Value() == E.SetNext256(old(Value()), b, c)
    {
      if edges[b].None? {
        children := (children + 1) % 256;
      }
      edges[b] := c;
    }

    /** The `switch ne.ntype` of `swapNext` and `setNext` (node.go:104-113, 129-138). */
    method SetNextByType(b: byte, c: Nodes.Node<V>)
      requires E.CanSet(Value(), b)
      modifies this, keys, edges
      ensures Value() == E.SetNext(old(Value()), b, c)
    {
      if ntype == E.Node4 {
        SetNext4(b, Some(c));
      } else if ntype == E.Node16 {
        SetNext16(b, Some(c));
      } else if ntype == E.Node48 {
        SetNext48(b, Some(c));
      } else {
        SetNext256(b, Some(c));
      }
    }

    // -------------------------------------------------------------------
    // Growth and copying
    // -------------------------------------------------------------------

    /** `upgrade4` (node.go:259-267): `setNext16` each of the four slots into a new Node16. */
    method Upgrade4() returns (r: Edges<V>)
      requires keys.Length == 4 && edges.Length == 4
      ensures fresh(r) && fresh(r.keys) && fresh(r.edges)
      ensures r.Value() == E.Upgrade4(Value())
    {
      ghost var e := Value();
      r := new Edges.Blank(E.Node16, 16, 16);
      assert r.Value() == E.NewEdges16();
      for i := 0 to 4
        invariant fresh(r) && fresh(r.keys) && fresh(r.edges)
        invariant r.keys.Length == 16 && r.edges.Length == 16 && r.children <= i
        invariant E.Upgrade4From(e, i, r.Value()) == E.Upgrade4(e)
      {
        ghost var acc := r.Value();
        r.SetNext16(keys[i], edges[i]);
        assert E.Upgrade4From(e, i, acc) == E.Upgrade4From(e, i + 1, r.Value());
      }
    }

    /** `upgrade16` (node.go:269-278): index entry `keys[i]` becomes i + 1 and slot i takes `edges[i]`. */
    method Upgrade16() returns (r: Edges<V>)
      requires keys.Length == 16 && edges.Length == 16 && children <= 16
      ensures fresh(r) && fresh(r.keys) && fresh(r.edges)
      ensures r.Value() == E.Upgrade16(Value())
    {
      r := new Edges.Blank(E.Node48, 256, 48);
      for i := 0 to children
        invariant fresh(r) && fresh(r.keys) && fresh(r.edges)
        invariant r.keys.Length == 256 && r.edges.Length == 48 && r.ntype == E.Node48 && r.children == 0
        invariant forall x :: 0 <= x < 256 ==> r.keys[x] == LastPos(keys[..], i, x)
        invariant forall j :: 0 <= j < 48 ==> r.edges[j] == if j < i then edges[j] else None
      {
        r.keys[keys[i]] := i + 1;
        r.edges[i] := edges[i];
      }
      assert r.keys[..] == Spread(keys[..], children);
      assert r.edges[..] == SpreadKids(edges[..], children);
    }

    /** `upgrade48` (node.go:280-290): slot b of a new Node256 takes the indexed child of b. */
    method Upgrade48() returns (r: Edges<V>)
      requires edges.Length == 48 && IndexInRange(keys[..], 48)
      ensures fresh(r) && fresh(r.keys) && fresh(r.edges)
      ensures r.Value() == E.Upgrade48(Value())
    {
      r := new Edges.Blank(E.Node256, 0, 256);
      for i := 0 to 256
        invariant fresh(r) && fresh(r.keys) && fresh(r.edges)
        invariant r.keys.Length == 0 && r.edges.Length == 256 && r.ntype == E.Node256 && r.children == 0
        invariant forall x :: 0 <= x < i ==> r.edges[x] == IndexNext(keys[..], edges[..], x)
        invariant forall x :: i <= x < 256 ==> r.edges[x].None?
      {
        if keys[i] > 0 {
          r.edges[i] := edges[keys[i] - 1];
        }
      }
      assert r.edges[..] == Flatten(keys[..], edges[..]);
    }

    /**
     * `upgrade` (node.go:242-257): move one layout up and carry the count.
     * From a full valid struct, the result is valid and maps the same bytes
     * to the same children.
     */
    method Upgrade() returns (r: Edges<V>)
      requires E.Shaped(Value()) && ntype < E.Node256
      ensures fresh(r) && fresh(r.keys) && fresh(r.edges)
      ensures r.Value() == E.Upgrade(Value())
      ensures Valid() && Full() ==> r.Valid() && r.Map() == Map() && r.children == children
    {
      if ntype == E.Node4 {
        r := Upgrade4();
      } else if ntype == E.Node16 {
        r := Upgrade16();
      } else {
        r := Upgrade48();
      }
      r.children := children;
      if Valid() && Full() {
        E.UpgradeAbs(Value());
      }
    }

    /** `copy` (node.go:314-326): a new struct with copies of both slices and the count. */
    method Copy() returns (r: Edges<V>)
      ensures fresh(r) && fresh(r.keys) && fresh(r.edges)
      ensures r.Value() == Value()
    {
      r := new Edges.Blank(ntype, keys.Length, edges.Length);
      forall i | 0 <= i < keys.Length {
        r.keys[i] := keys[i];
      }
      forall i | 0 <= i < edges.Length {
        r.edges[i] := edges[i];
      }
      r.children := children;
      assert r.keys[..] == keys[..] && r.edges[..] == edges[..];
    }

    // -------------------------------------------------------------------
    // The node's edge cell
    // -------------------------------------------------------------------

    /**
     * The set `swapNext` writes into (node.go:96-102): an upgrade when this
     * one is full and has no child under `b`, otherwise a copy.
     */
    method CopyOrUpgrade(b: byte) returns (ne: Edges<V>)
      requires Valid()
      ensures fresh(ne) && fresh(ne.keys) && fresh(ne.edges)
      ensures ne.Value() == Nodes.Room(Value(), b)
    {
      E.ValidShaped(Value());
      var cn := Next(b);
      if Full() && cn.None? {
        ne := Upgrade();
      } else {
        ne := Copy();
      }
    }

    /**
     * `swapNext` (node.go:87-116): when the child under `b` is `existing`,
     * write `next` into a copy or upgrade of the set, which is the set to
     * publish.  The published set itself is never written: the method has
     * no `modifies`.  A success maps `b` to `next` and keeps every other
     * byte's child.
     */
    method SwapNext(b: byte, existing: Option<Nodes.Node<V>>, next: Nodes.Node<V>) returns (ok: bool, ne: Edges<V>)
      requires Valid()
      ensures ok <==> MapGet(Map(), b) == existing
      ensures !ok ==> ne == this
      ensures ok ==> fresh(ne) && ne.Value() == E.SetNext(Nodes.Room(Value(), b), b, next)
      ensures ok && (ntype <= E.Node16 && b !in Map() ==> b != 0) ==> ne.Valid() && ne.Map() == Map()[b := next]
    {
      E.ValidShaped(Value());
      var cn := Next(b);
      if cn != existing {
        return false, this;
      }
      ne := CopyOrUpgrade(b);
      ne.SetNextByType(b, next);
      ok := true;
      if ntype <= E.Node16 && b !in Map() ==> b != 0 {
        Nodes.RoomSetNext(Value(), b, next);
      }
    }

    /**
     * The first half of `setNext` (node.go:121-127): when the set is full
     * and has no child under `b`, the struct takes on its upgrade.  (The Go
     * code writes into the upgrade first and copies it over the struct
     * after; as the upgrade is fresh, the order makes no difference.)
     */
    method MakeRoom(b: byte)
      requires Valid()
      modifies this
      ensures keys == old(keys) || fresh(keys)
      ensures edges == old(edges) || fresh(edges)
      ensures Value() == Nodes.Room(old(Value()), b)
    {
      E.ValidShaped(Value());
      var cn := Next(b);
      if Full() && cn.None? {
        var ne := Upgrade();
        ntype, keys, edges, children := ne.ntype, ne.keys, ne.edges, ne.children;
      }
    }

    /**
     * `setNext` (node.go:118-141): write `next` under `b` into the set
     * itself, or into its upgrade when it is full and has no child under
     * `b`, overwriting the struct in place (`*e = *newEdges`).
     */
    method SetNext(b: byte, next: Nodes.Node<V>)
      requires Valid()
      modifies this, keys, edges
      ensures Value() == E.SetNext(Nodes.Room(old(Value()), b), b, next)
      ensures (old(ntype) <= E.Node16 && b !in old(Map()) ==> b != 0) ==> Valid() && Map() == old(Map())[b := next]
    {
      ghost var e := Value();
      MakeRoom(b);
      SetNextByType(b, next);
      if e.ntype <= E.Node16 && b !in E.Abs(e) ==> b != 0 {
        Nodes.RoomSetNext(e, b, next);
      }
    }
  }
}
