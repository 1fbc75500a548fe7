/**
 * The traversal of iterator.go on node values.
 *
 * `iterate(key, current, fn)` visits current's children in byte order
 * 0..255; for the child under `i` it builds the key `key + [i] + prefix`,
 * reports the child's value under that key when it has one, and then
 * descends into the child with that key.  `Walk` is the sequence of calls
 * to `fn` such a traversal makes.  The lemmas say that this sequence is
 * exactly the set of stored keys below the start node, each with its
 * value, once each, in strictly ascending lexicographic order.
 */
module Iteration {
  import opened Types
  import opened Nodes
  import opened ArtSpec
  import E = NodeEdges
  import ArtProofs

  /** One call `fn(key, value)`. */
  datatype Entry<V> = Entry(key: seq<byte>, value: V)

  /**
   * The calls made by the loop of `iterate` (iterator.go:21-41) from byte
   * `i` on, below node `n` reached under `key`.
   */
  function WalkFrom<V>(n: Node<V>, key: seq<byte>, i: nat): seq<Entry<V>>
    requires ValidNode(n) && i <= 256
    decreases n, 256 - i
  {
    if i == 256 then []
    else
      ChildValid(n, i);
      match Next(n, i)
      case None => WalkFrom(n, key, i + 1)
      case Some(c) =>
        var ckey := key + [i as byte] + c.prefix;
        (if c.value.Some? then [Entry(ckey, c.value.value)] else [])
        + WalkFrom(c, ckey, 0)
        + WalkFrom(n, key, i + 1)
  }

  /** One round of the loop of `iterate`, at a byte with a child. */
  lemma WalkStep<V>(n: Node<V>, key: seq<byte>, i: byte, c: Node<V>)
    requires ValidNode(n) && E.Shaped(n.edges) && Next(n, i) == Some(c)
    ensures ValidNode(c)
    ensures var ckey := key + [i] + c.prefix;
      WalkFrom(n, key, i as nat) == (if c.value.Some? then [Entry(ckey, c.value.value)] else []) + WalkFrom(c, ckey, 0) + WalkFrom(n, key, i as nat + 1)
  {
    ChildValid(n, i);
  }

  /** `iterate(key, n, fn)` (iterator.go:16-42): every call the traversal below `n` makes. */
  function Walk<V>(n: Node<V>, key: seq<byte>): seq<Entry<V>>
    requires ValidNode(n)
  {
    WalkFrom(n, key, 0)
  }

  /** Strict lexicographic order on byte strings: a proper prefix comes first. */
  predicate Less(a: seq<byte>, b: seq<byte>)
  {
    exists j :: 0 <= j <= |a| && j < |b| && a[..j] == b[..j] && (j == |a| || a[j] < b[j])
  }

  /** The keys of a sequence of calls are strictly ascending. */
  predicate Ascending<V>(s: seq<Entry<V>>)
  {
    forall i, j :: 0 <= i < j < |s| ==> Less(s[i].key, s[j].key)
  }

  /** What the traversal from byte `i` owes: a stored key below `n`, reached through a byte `>= i`. */
  ghost predicate Owed<V>(n: Node<V>, key: seq<byte>, i: nat, k: seq<byte>, v: V)
    requires ValidNode(n)
  {
    |k| > |key| && k[..|key|] == key && k[|key|] as nat >= i && Get(n, k[|key|..]) == Some(v)
  }

  // ---------------------------------------------------------------------
  // Order
  // ---------------------------------------------------------------------

  /** A proper prefix is less. */
  lemma LessPrefix(a: seq<byte>, b: seq<byte>)
    requires |a| < |b| && b[..|a|] == a
    ensures Less(a, b)
  {
    assert a[..|a|] == b[..|a|];
  }

  /** Strings that agree up to `p` and then differ at the next byte are ordered by that byte. */
  lemma LessAt(p: seq<byte>, a: seq<byte>, b: seq<byte>)
    requires |a| > |p| && |b| > |p| && a[..|p|] == p && b[..|p|] == p && a[|p|] < b[|p|]
    ensures Less(a, b)
  {
    assert a[..|p|] == b[..|p|];
  }

  /** Two ascending runs, every key of the first below every key of the second, make an ascending run. */
  lemma AscendingAppend<V>(s: seq<Entry<V>>, t: seq<Entry<V>>)
    requires Ascending(s) && Ascending(t)
    requires forall x, y :: x in s && y in t ==> Less(x.key, y.key)
    ensures Ascending(s + t)
  {
    forall i, j | 0 <= i < j < |s + t|
      ensures Less((s + t)[i].key, (s + t)[j].key)
    {
      if j < |s| {
        assert (s + t)[i] == s[i] && (s + t)[j] == s[j];
      } else if i >= |s| {
        assert (s + t)[i] == t[i - |s|] && (s + t)[j] == t[j - |s|];
      } else {
        assert (s + t)[i] in s && (s + t)[j] in t;
      }
    }
  }

  // ---------------------------------------------------------------------
  // Shape of the calls
  // ---------------------------------------------------------------------

  /**
   * Every key the traversal from byte `i` reports strictly extends `key`
   * and goes through a byte `>= i` right after it.
   */
  lemma {:induction false} WalkKeys<V>(n: Node<V>, key: seq<byte>, i: nat)
    requires ValidNode(n) && i <= 256
    ensures forall x :: x in WalkFrom(n, key, i) ==>
      |x.key| > |key| && x.key[..|key|] == key && x.key[|key|] as nat >= i
    decreases n, 256 - i
  {
    if i < 256 {
      ChildValid(n, i);
      WalkKeys(n, key, i + 1);
      match Next(n, i)
      case None =>
      case Some(c) =>
        var ckey := key + [i as byte] + c.prefix;
        WalkKeys(c, ckey, 0);
        forall x | x in WalkFrom(c, ckey, 0)
          ensures |x.key| > |key| && x.key[..|key|] == key && x.key[|key|] as nat >= i
        {
          assert x.key[..|ckey|][..|key| + 1] == x.key[..|key| + 1];
          assert ckey[..|key| + 1] == key + [i as byte];
        }
    }
  }

  /** The traversal reports its keys in strictly ascending order (iterator.go:21-40). */
  lemma {:induction false} WalkAscending<V>(n: Node<V>, key: seq<byte>, i: nat)
    requires ValidNode(n) && i <= 256
    ensures Ascending(WalkFrom(n, key, i))
    decreases n, 256 - i
  {
    if i < 256 {
      ChildValid(n, i);
      WalkAscending(n, key, i + 1);
      WalkKeys(n, key, i + 1);
      match Next(n, i)
      case None =>
      case Some(c) =>
        var ckey := key + [i as byte] + c.prefix;
        var head: seq<Entry<V>> := if c.value.Some? then [Entry(ckey, c.value.value)] else [];
        var sub := WalkFrom(c, ckey, 0);
        var tail := WalkFrom(n, key, i + 1);
        WalkAscending(c, ckey, 0);
        WalkKeys(c, ckey, 0);
        forall x, y | x in head && y in sub
          ensures Less(x.key, y.key)
        {
          LessPrefix(x.key, y.key);
        }
        AscendingAppend(head, sub);
        forall x, y | x in head + sub && y in tail
          ensures Less(x.key, y.key)
        {
          assert x.key[..|ckey|][..|key| + 1] == x.key[..|key| + 1];
          assert ckey[..|key| + 1] == key + [i as byte];
          assert x.key[..|key|] == key && x.key[|key|] == i as byte;
          LessAt(key, x.key, y.key);
        }
        AscendingAppend(head + sub, tail);
    }
  }

  /**
   * The traversal from byte `i` reports `(k, v)` exactly when `n` stores
   * `v` under the part of `k` after `key` and that part starts with a
   * byte `>= i`: it reports every stored key below `n` and nothing else.
   */
  lemma {:induction false} WalkReports<V>(n: Node<V>, key: seq<byte>, i: nat, k: seq<byte>, v: V)
    requires ValidNode(n) && i <= 256
    ensures Entry(k, v) in WalkFrom(n, key, i) <==> Owed(n, key, i, k, v)
    decreases n, 256 - i
  {
    if i < 256 {
      ChildValid(n, i);
      WalkReports(n, key, i + 1, k, v);
      if |k| > |key| && k[..|key|] == key && k[|key|] as nat == i {
        ArtProofs.GetBelow(n, k[|key|..]);
        assert k[|key|..][0] == i as byte;
      }
      match Next(n, i)
      case None =>
      case Some(c) =>
        var ckey := key + [i as byte] + c.prefix;
        WalkReports(c, ckey, 0, k, v);
        ChildRoute(key, i as byte, c.prefix, k);
        if |k| > |key| && k[..|key|] == key && k[|key|] as nat == i && c.prefix <= k[|key|..][1..] {
          assert k[|key|..][1..][|c.prefix|..] == k[|ckey|..];
          if k[|ckey|..] == [] {
            assert k == ckey;
          }
        }
        if k == ckey {
          assert k[|ckey|..] == [];
        }
    }
  }

  /** A key continues `key + [b] + p` exactly when it continues `key`, then `b`, then `p`. */
  lemma ChildRoute(key: seq<byte>, b: byte, p: seq<byte>, k: seq<byte>)
    ensures var ckey := key + [b] + p;
      (|k| >= |ckey| && k[..|ckey|] == ckey)
      <==> (|k| > |key| && k[..|key|] == key && k[|key|] == b && p <= k[|key|..][1..])
  {
    var ckey := key + [b] + p;
    if |k| >= |ckey| && k[..|ckey|] == ckey {
      assert k[..|key|] == k[..|ckey|][..|key|];
      assert k[|key|..][1..][..|p|] == k[..|ckey|][|key| + 1..];
    }
    if |k| > |key| && k[..|key|] == key && k[|key|] == b && p <= k[|key|..][1..] {
      assert k[..|ckey|] == k[..|key|] + [k[|key|]] + k[|key|..][1..][..|p|];
    }
  }

  // ---------------------------------------------------------------------
  // Starting points
  // ---------------------------------------------------------------------

  /**
   * What a tree stores under `key + rel`, read from the result `f` of
   * `find` for `key`: below an exact match it is what current stores under
   * `rel`; where `key` ends inside current's prefix, `rel` must carry the
   * rest of that prefix; elsewhere the tree holds no such key.
   */
  ghost function Beyond<V>(key: seq<byte>, f: Found<V>, rel: seq<byte>): Option<V>
    requires Located(key, f)
  {
    match f.current
    case None => None
    case Some(c) =>
      ChildValid(f.parent, key[EdgePos(f)]);
      if f.dv >= |c.prefix| then Get(c, rel)
      else if f.pos + f.dv == |key| then
        var t := c.prefix[f.dv..];
        if t <= rel then Get(c, rel[|t|..]) else None
      else None
  }

  /** `find` from `n` tells what `n` stores under every extension of the rest of the key. */
  lemma {:induction false} FindBeyond<V>(n: Node<V>, key: seq<byte>, pos: nat, dv: nat, rel: seq<byte>)
    requires ValidNode(n) && pos < |key|
    ensures Get(n, key[pos..] + rel) == Beyond(key, FindFrom(n, key, pos, dv), rel)
    decreases |key| - pos, 1
  {
    if ArtProofs.Deeper(n, key, pos) {
      FindBeyondDeeper(n, key, pos, dv, rel);
    } else {
      FindBeyondStops(n, key, pos, dv, rel);
    }
  }

  lemma {:induction false} FindBeyondDeeper<V>(n: Node<V>, key: seq<byte>, pos: nat, dv: nat, rel: seq<byte>)
    requires ValidNode(n) && pos < |key| && ArtProofs.Deeper(n, key, pos)
    ensures Get(n, key[pos..] + rel) == Beyond(key, FindFrom(n, key, pos, dv), rel)
    decreases |key| - pos, 0
  {
    ChildValid(n, key[pos]);
    var c := Next(n, key[pos]).value;
    var pos2 := pos + 1 + |c.prefix|;
    var dv2 := if |c.prefix| > 0 then |c.prefix| else dv;
    ArtProofs.Descend(n, key, pos, dv, n, c, pos2, dv2);
    FindBeyond(c, key, pos2, dv2, rel);
    GetStepBeyond(n, key, pos, c, pos2, rel);
  }

  /** Reading an extension of the key below `n` through the child whose whole prefix the key carries. */
  lemma GetStepBeyond<V>(n: Node<V>, key: seq<byte>, pos: nat, c: Node<V>, pos2: nat, rel: seq<byte>)
    requires ValidNode(n) && E.Shaped(n.edges) && pos < pos2 <= |key|
    requires Next(n, key[pos]) == Some(c) && c.prefix == key[pos + 1..pos2]
    ensures ValidNode(c) && Get(n, key[pos..] + rel) == Get(c, key[pos2..] + rel)
  {
    var k := key + rel;
    ExtendSlices(key, rel, pos, pos2);
    ArtProofs.GetStep(n, k, pos, c, pos2);
  }

  /** Slicing `key + rel` inside `key`, and from inside `key` onwards. */
  lemma ExtendSlices(key: seq<byte>, rel: seq<byte>, pos: nat, pos2: nat)
    requires pos < pos2 <= |key|
    ensures var k := key + rel;
      && k[pos] == key[pos] && k[pos + 1..pos2] == key[pos + 1..pos2]
      && k[pos..] == key[pos..] + rel && k[pos2..] == key[pos2..] + rel
  {
    var k := key + rel;
    assert k[pos + 1..pos2] == key[pos + 1..pos2];
    assert k[pos..] == key[pos..] + rel;
    assert k[pos2..] == key[pos2..] + rel;
  }

  lemma FindBeyondStops<V>(n: Node<V>, key: seq<byte>, pos: nat, dv: nat, rel: seq<byte>)
    requires ValidNode(n) && pos < |key| && !ArtProofs.Deeper(n, key, pos)
    ensures Get(n, key[pos..] + rel) == Beyond(key, FindFrom(n, key, pos, dv), rel)
  {
    var k := key[pos..] + rel;
    ArtProofs.GetBelow(n, k);
    assert k[0] == key[pos];
    var x := k[1..];
    assert x == key[pos + 1..] + rel;
    var c := Next(n, key[pos]);
    if c.Some? {
      var m := c.value;
      var tail := key[pos + 1..];
      if |m.prefix| > 0 {
        var d := Divergence(m.prefix, tail);
        if d == |m.prefix| {
          assert m.prefix == tail[..d];
          assert x[|m.prefix|..] == rel;
        } else if pos + 1 + d == |key| {
          assert d == |tail|;
          assert m.prefix[..d] == tail;
          assert m.prefix <= x <==> m.prefix[d..] <= rel;
          if m.prefix <= x {
            assert x[|m.prefix|..] == rel[|m.prefix[d..]|..];
          }
        } else {
          assert d < |tail| && m.prefix[d] != tail[d];
          assert x[d] == tail[d];
          assert !(m.prefix <= x);
        }
      } else {
        assert x[0..] == rel;
      }
    }
  }

  /**
   * `Iterate` (iterator.go:4-14) as written: from the root for an empty
   * `from`, else from the node `find` stops at, with `from` as the key
   * built so far.  `None` stands for the nil dereference of iterator.go:17
   * when `find` reaches no node.
   */
  function IterateAsWritten<V>(root: Node<V>, from: seq<byte>): Option<seq<Entry<V>>>
    requires ValidNode(root)
  {
    if |from| > 0 then
      var f := Find(root, from);
      if f.current.None? then None
      else
        ChildValid(f.parent, from[EdgePos(f)]);
        Some(Walk(f.current.value, from))
    else Some(Walk(root, from))
  }

  /**
   * `Iterate` reporting the stored keys that strictly extend `from`: from
   * the node that holds them, under the key that node actually stands for.
   */
  function Iterate<V>(root: Node<V>, from: seq<byte>): seq<Entry<V>>
    requires ValidNode(root)
  {
    if |from| == 0 then Walk(root, from) else Resume(from, Find(root, from))
  }

  /**
   * The calls of `Iterate` for a non-empty `from`, given what `find`
   * reports for it: below current under the key current stands for, when
   * `from` reaches current; nothing when the tree holds no key beyond `from`.
   */
  function Resume<V>(from: seq<byte>, f: Found<V>): seq<Entry<V>>
    requires Located(from, f)
  {
    match f.current
    case None => []
    case Some(c) =>
      ChildValid(f.parent, from[EdgePos(f)]);
      if f.dv >= |c.prefix| then Walk(c, from)
      else if f.pos + f.dv == |from| then
        var base := from + c.prefix[f.dv..];
        (if c.value.Some? then [Entry(base, c.value.value)] else []) + Walk(c, base)
      else []
  }

  /**
   * From the root, `Iterate` reports every stored key with its value and
   * nothing else; from a non-empty `from`, exactly the stored keys that
   * strictly extend `from`.
   */
  lemma IterateReports<V>(root: Node<V>, from: seq<byte>, k: seq<byte>, v: V)
    requires ValidRoot(root)
    ensures Entry(k, v) in Iterate(root, from) <==> |k| > |from| && k[..|from|] == from && Get(root, k) == Some(v)
  {
    if |from| == 0 {
      WalkReports(root, from, 0, k, v);
      assert k[0..] == k;
    } else {
      var f := Find(root, from);
      if |k| > |from| && k[..|from|] == from {
        var rel := k[|from|..];
        FindBeyond(root, from, 0, 0, rel);
        assert from[0..] + rel == k;
      }
      if f.current.Some? {
        var c := f.current.value;
        ChildValid(f.parent, from[EdgePos(f)]);
        if f.dv >= |c.prefix| {
          WalkReports(c, from, 0, k, v);
        } else if f.pos + f.dv == |from| {
          SplitReports(from, f, c, k, v);
        }
      }
    }
  }

  /** Where `from` ends inside current's prefix, the calls from current report what lies beyond `from`. */
  lemma SplitReports<V>(from: seq<byte>, f: Found<V>, c: Node<V>, k: seq<byte>, v: V)
    requires Located(from, f) && f.current == Some(c) && ValidNode(c)
    requires f.dv < |c.prefix| && f.pos + f.dv == |from|
    ensures var base := from + c.prefix[f.dv..];
      Entry(k, v) in (if c.value.Some? then [Entry(base, c.value.value)] else []) + Walk(c, base)
      <==> |k| > |from| && k[..|from|] == from && Beyond(from, f, k[|from|..]) == Some(v)
  {
    var t := c.prefix[f.dv..];
    var base := from + t;
    WalkReports(c, base, 0, k, v);
    if |k| > |from| && k[..|from|] == from {
      var rel := k[|from|..];
      assert k == from + rel;
      if |k| >= |base| && k[..|base|] == base {
        assert rel[..|t|] == k[..|base|][|from|..];
      }
      if t <= rel {
        assert k[..|base|] == from + rel[..|t|];
        assert k[|base|..] == rel[|t|..];
      }
    }
    if k == base {
      assert k[..|from|] == from && k[|from|..] == t;
    }
  }

  /** `Iterate` reports its keys in strictly ascending order, each once. */
  lemma IterateAscending<V>(root: Node<V>, from: seq<byte>)
    requires ValidRoot(root)
    ensures Ascending(Iterate(root, from))
  {
    if |from| == 0 {
      WalkAscending(root, from, 0);
    } else {
      var f := Find(root, from);
      match f.current
      case None =>
      case Some(c) =>
        ChildValid(f.parent, from[EdgePos(f)]);
        if f.dv >= |c.prefix| {
          WalkAscending(c, from, 0);
        } else if f.pos + f.dv == |from| {
          var base := from + c.prefix[f.dv..];
          var head: seq<Entry<V>> := if c.value.Some? then [Entry(base, c.value.value)] else [];
          WalkAscending(c, base, 0);
          WalkKeys(c, base, 0);
          forall x, y | x in head && y in Walk(c, base)
            ensures Less(x.key, y.key)
          {
            LessPrefix(x.key, y.key);
          }
          AscendingAppend(head, Walk(c, base));
        }
    }
  }

  /**
   * Where `find` stops exactly at the end of a node, and from the root,
   * `Iterate` as written reaches a node and reports exactly the stored keys
   * that strictly extend `from`, in ascending order.
   */
  lemma IterateAsWrittenExact<V>(root: Node<V>, from: seq<byte>)
    requires ValidRoot(root)
    requires |from| > 0 ==> Find(root, from).current.Some? && Find(root, from).dv >= |Find(root, from).current.value.prefix|
    ensures IterateAsWritten(root, from).Some?
    ensures forall k, v :: Entry(k, v) in IterateAsWritten(root, from).value <==>
      |k| > |from| && k[..|from|] == from && Get(root, k) == Some(v)
    ensures Ascending(IterateAsWritten(root, from).value)
  {
    IterateAscending(root, from);
    forall k, v
      ensures Entry(k, v) in Iterate(root, from) <==> |k| > |from| && k[..|from|] == from && Get(root, k) == Some(v)
    {
      IterateReports(root, from, k, v);
    }
  }

  /**
   * The tree that stores "ab" and "abc": a node with prefix "b" and the
   * value `a` under 'a', and below it an empty-prefix leaf with the value `b`
   * under 'c'.
   */
  lemma SplitTree<V>(a: V, b: V) returns (t: Node<V>, n: Node<V>)
    ensures n == SetNext(NewNode(E.Node4, [98], Some(a)), 99, NewNode(E.Node4, [], Some(b)))
    ensures t == SetNext(NewRoot<V>(), 97, n)
    ensures ValidRoot(t) && ValidNode(n) && n.prefix == [98]
    ensures Next(t, 97) == Some(n)
    ensures Get(t, [97, 98]) == Some(a) && Get(t, [97, 98, 99]) == Some(b)
  {
    var leaf := NewNode(E.Node4, [], Some(b));
    var n0 := NewNode(E.Node4, [98], Some(a));
    NewNodeEmpty(E.Node4, [], Some(b));
    NewNodeEmpty(E.Node4, [98], Some(a));
    SetNextInserts(n0, 99, leaf);
    SetNextValid(n0, 99, leaf);
    n := SetNext(n0, 99, leaf);
    ArtProofs.NewRootEmpty<V>();
    var root := NewRoot<V>();
    SetNextInserts(root, 97, n);
    SetNextValid(root, 97, n);
    t := SetNext(root, 97, n);
    ArtProofs.GetBelow(t, [97, 98]);
    ArtProofs.GetBelow(t, [97, 98, 99]);
    ArtProofs.GetBelow(n, [99]);
    assert [97, 98, 99][1..] == [98, 99] && [98, 99][1..] == [99];
  }

  /**
   * `Iterate` as written, from a key that ends inside a node's prefix,
   * reports keys the tree does not hold.  In the tree of `SplitTree`,
   * iterating from "a" reports "ac" with the value of "abc".
   */
  lemma IterateAsWrittenSplit<V>(a: V, b: V)
    ensures var n := SetNext(NewNode(E.Node4, [98], Some(a)), 99, NewNode(E.Node4, [], Some(b)));
      var t := SetNext(NewRoot<V>(), 97, n);
      && ValidRoot(t)
      && Get(t, [97, 98]) == Some(a) && Get(t, [97, 98, 99]) == Some(b)
      && IterateAsWritten(t, [97]).Some?
      && Entry([97, 99], b) in IterateAsWritten(t, [97]).value
      && Get(t, [97, 99]) == None
  {
    var t, n := SplitTree(a, b);
    ArtProofs.GetBelow(t, [97, 99]);
    assert Divergence(n.prefix, [97][1..]) == 0;
    assert Find(t, [97]) == Found(t, Some(n), 1, 0);
    WalkReports(n, [97], 0, [97, 99], b);
    assert [97, 99][1..] == [99];
  }

  /**
   * `Iterate` as written, from a key that leaves a node's prefix before it
   * ends, reports keys below a node `from` does not lead to.  In the tree of
   * `SplitTree`, iterating from "ax" reports "axc", which is not stored,
   * where nothing stored extends "ax".
   */
  lemma IterateAsWrittenDiverged<V>(a: V, b: V)
    ensures var n := SetNext(NewNode(E.Node4, [98], Some(a)), 99, NewNode(E.Node4, [], Some(b)));
      var t := SetNext(NewRoot<V>(), 97, n);
      && ValidRoot(t)
      && IterateAsWritten(t, [97, 120]).Some?
      && Entry([97, 120, 99], b) in IterateAsWritten(t, [97, 120]).value
      && Get(t, [97, 120, 99]) == None
      && Iterate(t, [97, 120]) == []
  {
    var t, n := SplitTree(a, b);
    ArtProofs.GetBelow(t, [97, 120, 99]);
    assert [97, 120, 99][1..] == [120, 99];
    assert Divergence(n.prefix, [97, 120][1..]) == 0;
    assert Find(t, [97, 120]) == Found(t, Some(n), 1, 0);
    WalkReports(n, [97, 120], 0, [97, 120, 99], b);
    assert [97, 120, 99][2..] == [99];
  }

  /**
   * `Iterate` as written from a key with no path in the tree hands `iterate`
   * the nil node `find` returns: from [1] in an empty tree it dereferences
   * nil, where nothing is to be reported.
   */
  lemma IterateAsWrittenNil<V>()
    ensures IterateAsWritten(NewRoot<V>(), [1]) == None
    ensures Iterate(NewRoot<V>(), [1]) == []
  {
    ArtProofs.NewRootEmpty<V>();
    assert Find(NewRoot<V>(), [1]) == Found(NewRoot<V>(), None, 0, 0);
  }
}
