/**
 * art.go's `ART` and its iterator (iterator.go): the tree object, whose
 * one field is the root it replaces on every successful write, and the
 * loops of `divergence`, `find` and `iterate`.
 *
 * The methods run one round of the source's retry loops, which in a
 * sequential run always publishes; each is proved against the value model
 * of ArtSpec and Iteration, and through it against `Nodes.Get`.
 */
module Art {
  import opened Types
  import opened Nodes
  import S = ArtSpec
  import P = ArtProofs
  import I = Iteration

  /** `divergence` (art.go:223-235): count the leading bytes `prefix` and `key` share. */
  method Divergence(prefix: seq<byte>, key: seq<byte>) returns (i: nat)
    ensures i == S.Divergence(prefix, key)
    ensures prefix[..i] == key[..i]
  {
    i := 0;
    while i < |key| && i < |prefix|
      invariant i <= |key| && i <= |prefix|
      invariant prefix[..i] == key[..i]
    {
      if key[i] != prefix[i] {
        break;
      }
      i := i + 1;
    }
  }

  /** art.go's `ART`. */
  class ART<V(==)> {
    var root: Node<V>

    /** The tree keeps a valid, value-less Node256 root. */
    ghost predicate Valid()
      reads this
    {
      S.ValidRoot(root)
    }

    /** `New` (art.go:9-13): an empty Node256 root. */
    constructor New()
      ensures Valid() && root == S.NewRoot()
      ensures forall k :: Get(root, k) == None
    {
      root := S.NewRoot();
      P.NewRootEmpty<V>();
    }

    /**
     * `find` (art.go:126-160): walk down from the root, consuming the edge
     * byte and then the child's prefix, until an edge is missing, a prefix
     * diverges or the key is used up.
     */
    method Find(key: seq<byte>) returns (parent: Node<V>, current: Option<Node<V>>, pos: nat, dv: nat)
      requires Valid() && |key| > 0
      ensures S.Found(parent, current, pos, dv) == S.Find(root, key)
      ensures S.Located(key, S.Found(parent, current, pos, dv))
    {
      pos, dv := 0, 0;
      var node := root;
      while true
        invariant ValidNode(node) && pos < |key|
        invariant S.FindFrom(node, key, pos, dv) == S.Find(root, key)
        decreases |key| - pos
      {
        parent := node;
        ghost var pos0, dv0 := pos, dv;
        ChildValid(node, key[pos]);
        var n := Next(node, key[pos]);
        if n.None? {
          return node, None, pos, dv;
        }
        node := n.value;
        pos := pos + 1;
        if |node.prefix| > 0 {
          dv := Divergence(node.prefix, key[pos..]);
          if |node.prefix| > dv {
            return parent, Some(node), pos, dv;
          }
          pos := pos + dv;
        }
        if pos == |key| {
          return parent, Some(node), pos, dv;
        }
        P.Descend(parent, key, pos0, dv0, parent, node, pos, dv);
      }
    }

    /**
     * `Insert` (art.go:16-44): locate, publish through the mutator the
     * dispatch picks, and read the tree through the new parent.  The key
     * then holds the value and every other key keeps its own.
     */
    method Insert(key: seq<byte>, value: V) returns (ok: bool)
      requires Valid() && S.KeyOk(key)
      modifies this
      ensures Valid() && ok
      ensures root == S.InsertTree(old(root), key, value).node
      ensures forall k :: Get(root, k) == if k == key then Some(value) else Get(old(root), k)
    {
      var parent, current, pos, dv := Find(key);
      var f := S.Found(parent, current, pos, dv);
      P.CommitStores(root, key, value);
      var s := S.Publish(key, value, f);
      ok := s.ok;
      root := S.Graft(root, key, 0, 0, s.node);
    }

    /**
     * `Swap` (art.go:47-87), corrected to a compare-and-swap: it stores
     * `value` under the key exactly when the key holds `expected` (nil for
     * absent), and otherwise leaves the tree alone.  The
     * code as written, `ArtSpec.SwapAsWritten`, decides differently on keys
     * the tree does not hold.
     */
    method Swap(key: seq<byte>, expected: Option<V>, value: V) returns (ok: bool)
      requires Valid() && S.KeyOk(key)
      modifies this
      ensures Valid()
      ensures ok <==> Get(old(root), key) == expected
      ensures !ok ==> root == old(root)
      ensures ok ==> forall k :: Get(root, k) == if k == key then Some(value) else Get(old(root), k)
    {
      var parent, current, pos, dv := Find(key);
      var f := S.Found(parent, current, pos, dv);
      P.LookupGet(root, key);
      if S.Reached(key, f) != expected {
        return false;
      }
      P.CommitStores(root, key, value);
      var s := S.Publish(key, value, f);
      ok := s.ok;
      root := S.Graft(root, key, 0, 0, s.node);
    }

    /**
     * `Lookup` (art.go:90-98), corrected to answer only for a key that ends
     * exactly at a node, else nil.  The code as written,
     * `ArtSpec.LookupAsWritten`, also answers for a key that ends inside the
     * found node's prefix.
     */
    method Lookup(key: seq<byte>) returns (r: Option<V>)
      requires Valid() && |key| > 0
      ensures r == Get(root, key)
    {
      var parent, current, pos, dv := Find(key);
      P.LookupGet(root, key);
      if current.None? || |key| > pos || dv < |current.value.prefix| {
        return None;
      }
      r := current.value.value;
    }

    /**
     * `Iterate` (iterator.go:4-14), corrected to report every stored key
     * that strictly extends `from` (every key, for an empty `from`), once
     * each, ascending.  The code as written, `Iteration.IterateAsWritten`,
     * builds wrong keys where `from` stops inside a prefix and dereferences
     * nil where `from` leaves the tree.
     */
    method Iterate(from: seq<byte>) returns (out: seq<I.Entry<V>>)
      requires Valid()
      ensures out == I.Iterate(root, from)
      ensures forall k, v :: I.Entry(k, v) in out <==> |k| > |from| && k[..|from|] == from && Get(root, k) == Some(v)
      ensures I.Ascending(out)
    {
      if |from| == 0 {
        out := IterateNode(from, root);
      } else {
        var parent, current, pos, dv := Find(from);
        out := Resume(from, parent, current, pos, dv);
      }
      assert out == I.Iterate(root, from);
      I.IterateAscending(root, from);
      forall k, v
        ensures I.Entry(k, v) in out <==> |k| > |from| && k[..|from|] == from && Get(root, k) == Some(v)
      {
        I.IterateReports(root, from, k, v);
      }
    }

    /**
     * What the corrected `Iterate` reports from the node `find` reached for
     * a non-empty `from`: below current under the key current stands for,
     * and nothing where no node was reached or `from` left current's prefix.
     */
    method Resume(from: seq<byte>, parent: Node<V>, current: Option<Node<V>>, pos: nat, dv: nat) returns (out: seq<I.Entry<V>>)
      requires S.Located(from, S.Found(parent, current, pos, dv))
      ensures out == I.Resume(from, S.Found(parent, current, pos, dv))
    {
      if current.None? {
        return [];
      }
      var c := current.value;
      ChildValid(parent, from[S.EdgePos(S.Found(parent, current, pos, dv))]);
      if dv >= |c.prefix| {
        out := IterateNode(from, c);
      } else if pos + dv == |from| {
        var base := from + c.prefix[dv..];
        out := if c.value.Some? then [I.Entry(base, c.value.value)] else [];
        var rest := IterateNode(base, c);
        out := out + rest;
      } else {
        out := [];
      }
    }

    /**
     * `iterate` (iterator.go:16-42): for each byte 0..255 with a child,
     * report the child's value under parent key, byte and prefix, then
     * descend with that key.
     */
    method IterateNode(key: seq<byte>, current: Node<V>) returns (out: seq<I.Entry<V>>)
      requires ValidNode(current)
      ensures out == I.Walk(current, key)
      decreases current, 0
    {
      out := [];
      for i := 0 to 256
        invariant out + I.WalkFrom(current, key, i) == I.Walk(current, key)
      {
        ChildValid(current, i);
        var next := Next(current, i);
        if next.None? {
          assert I.WalkFrom(current, key, i) == I.WalkFrom(current, key, i + 1);
        } else {
          var part := VisitChild(key, i, next.value);
          I.WalkStep(current, key, i, next.value);
          assert out + (part + I.WalkFrom(current, key, i + 1)) == (out + part) + I.WalkFrom(current, key, i + 1);
          out := out + part;
        }
      }
    }

    /**
     * The body of `iterate`'s loop for the child `c` under byte `b`
     * (iterator.go:27-40): build the child's key, report its value, descend.
     */
    method VisitChild(key: seq<byte>, b: byte, c: Node<V>) returns (out: seq<I.Entry<V>>)
      requires ValidNode(c)
      ensures var ckey := key + [b] + c.prefix;
        out == (if c.value.Some? then [I.Entry(ckey, c.value.value)] else []) + I.Walk(c, ckey)
      decreases c, 1
    {
      var ckey := key + [b] + c.prefix;
      out := [];
      if c.value.Some? {
        out := [I.Entry(ckey, c.value.value)];
      }
      var sub := IterateNode(ckey, c);
      out := out + sub;
    }
  }
}
