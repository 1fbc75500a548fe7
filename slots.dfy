/**
 * The slot layouts shared by both generations of edge sets, stated on
 * sequences (the contents of the fixed Go arrays):
 *
 *  - the small layouts (4 and 16 slots): `keys[i]`/`kids[i]` for the `n`
 *    slots in use, then unused slots holding key 0 and no child;
 *  - the indexed layout (48 slots): a 256-entry index table whose entry for
 *    byte `b` is 0 (absent) or `k` (the child lives in slot `k-1`);
 *  - the direct layout (256 slots): the child for `b` lives in slot `b`.
 *
 * Each layout has an abstraction into a `map<byte, C>`, and the lemmas here
 * say how the in-place writes of the Go code change that map.
 */
module Slots {
  import opened Types

  // ---------------------------------------------------------------------
  // Scans used by `next` and `search`
  // ---------------------------------------------------------------------

  /** `bytes.IndexByte`: the first position holding `b`, or -1. */
  function IndexByte(s: seq<byte>, b: byte): (r: int)
    ensures -1 <= r < |s|
    ensures r >= 0 ==> s[r] == b && forall j :: 0 <= j < r ==> s[j] != b
    ensures r < 0 ==> forall j :: 0 <= j < |s| ==> s[j] != b
  {
    if |s| == 0 then -1
    else if s[0] == b then 0
    else
      var r := IndexByte(s[1..], b);
      if r < 0 then -1 else r + 1
  }

  /** The first position whose key is at least `b`, or `|s|`. */
  function FirstAtLeast(s: seq<byte>, b: byte): (r: nat)
    ensures r <= |s|
    ensures forall j :: 0 <= j < r ==> s[j] < b
    ensures r < |s| ==> s[r] >= b
  {
    if |s| == 0 || s[0] >= b then 0 else 1 + FirstAtLeast(s[1..], b)
  }

  /**
   * `search` (edges4.go, edges16.go, node.go): scans the whole key array for
   * the first key at least `b` and falls back to the child count `n`.
   */
  function Search(keys: seq<byte>, n: nat, b: byte): nat
  {
    var i := FirstAtLeast(keys, b);
    if i < |keys| then i else n
  }

  /**
   * Go's `sort.Search(j, f)` with `f(h) = keys[h] >= b`, started on the
   * half-open range `[i, j)`: bisect until the range is empty.
   */
  function SortSearch(keys: seq<byte>, b: byte, i: nat, j: nat): (r: nat)
    requires i <= j <= |keys|
    ensures i <= r <= j
    decreases j - i
  {
    if i < j then
      var h := (i + j) / 2;
      if !(keys[h] >= b) then SortSearch(keys, b, h + 1, j) else SortSearch(keys, b, i, h)
    else i
  }

  /** The first `n` keys are strictly ascending. */
  ghost predicate Ascending(keys: seq<byte>, n: nat)
    requires n <= |keys|
  {
    forall i, j :: 0 <= i < j < n ==> keys[i] < keys[j]
  }

  /** `FirstAtLeast` is the only position splitting the smaller keys from the rest. */
  lemma FirstAtLeastUnique(s: seq<byte>, b: byte, r: nat)
    requires r <= |s|
    requires forall k :: 0 <= k < r ==> s[k] < b
    requires r < |s| ==> s[r] >= b
    ensures FirstAtLeast(s, b) == r
  {
  }

  /**
   * On ascending keys, bisection finds the first key at least `b`: the
   * result is exactly `FirstAtLeast` over the first `n` keys.
   */
  lemma {:induction false} SortSearchSorted(keys: seq<byte>, b: byte, i: nat, j: nat, n: nat)
    requires i <= j <= n <= |keys| && Ascending(keys, n)
    requires i <= FirstAtLeast(keys[..n], b) <= j
    ensures SortSearch(keys, b, i, j) == FirstAtLeast(keys[..n], b)
    decreases j - i
  {
    if i < j {
      var r := FirstAtLeast(keys[..n], b);
      var h := (i + j) / 2;
      if !(keys[h] >= b) {
        assert r < n ==> keys[..n][r] == keys[r];
        SortSearchSorted(keys, b, h + 1, j, n);
      } else {
        assert keys[..n][h] == keys[h];
        SortSearchSorted(keys, b, i, h, n);
      }
    }
  }

  /** Go's `copy(s[p+1:], s[p:])` followed by `s[p] = x`: insert at `p`, dropping the last element. */
  function ShiftInsert<T>(s: seq<T>, p: nat, x: T): (r: seq<T>)
    requires p < |s|
    ensures |r| == |s|
    ensures forall i :: 0 <= i < |s| ==> r[i] == if i < p then s[i] else if i == p then x else s[i - 1]
  {
    s[..p] + [x] + s[p..|s| - 1]
  }

  /**
   * `search` (edges4.go:50-57, edges16.go:46-53, node.go:292-299): scan all key slots for
   * the first key at least `b`, and fall back to the child count.
   */
  method SearchKeys(keys: array<byte>, children: nat, b: byte) returns (i: nat)
    ensures i == Search(keys[..], children, b)
  {
    i := 0;
    while i < keys.Length
      invariant i <= keys.Length
      invariant forall j :: 0 <= j < i ==> keys[j] < b
    {
      if keys[i] >= b {
        FirstAtLeastUnique(keys[..], b, i);
        return;
      }
      i := i + 1;
    }
    FirstAtLeastUnique(keys[..], b, i);
    i := children;
  }

  /**
   * Go's `copy(a[p+1:], a[p:])` followed by `a[p] = x`: move the slots from
   * `p` on one place right, dropping the last, and write `x` at `p`.
   */
  method ShiftIn<T>(a: array<T>, p: nat, x: T)
    requires p < a.Length
    modifies a
    ensures a[..] == ShiftInsert(old(a[..]), p, x)
  {
    var j := a.Length - 1;
    while j > p
      invariant p <= j < a.Length
      invariant forall k :: 0 <= k <= j ==> a[k] == old(a[k])
      invariant forall k :: j < k < a.Length ==> a[k] == old(a[k - 1])
    {
      a[j] := a[j - 1];
      j := j - 1;
    }
    a[p] := x;
  }

  // ---------------------------------------------------------------------
  // Small layouts (4 and 16 slots)
  // ---------------------------------------------------------------------

  /** Slots `i` and `j` hold different keys. */
  ghost predicate Differ(keys: seq<byte>, i: nat, j: nat)
    requires i < |keys| && j < |keys|
  {
    keys[i] != keys[j]
  }

  /** No key occurs twice among the first `n`. */
  ghost predicate Distinct(keys: seq<byte>, n: nat)
    requires n <= |keys|
  {
    forall i, j :: 0 <= i < j < n ==> Differ(keys, i, j)
  }

  /** `Distinct` spelled out for any two different slots in use. */
  lemma DistinctAll(keys: seq<byte>, n: nat)
    requires n <= |keys| && Distinct(keys, n)
    ensures forall i, j :: 0 <= i < n && 0 <= j < n && i != j ==> keys[i] != keys[j]
  {
    forall i, j | 0 <= i < n && 0 <= j < n && i != j
      ensures keys[i] != keys[j]
    {
      if i < j {
        assert Differ(keys, i, j);
      } else {
        assert Differ(keys, j, i);
      }
    }
  }

  ghost predicate Filled<C>(kids: seq<Option<C>>, n: nat)
    requires n <= |kids|
  {
    forall i :: 0 <= i < n ==> kids[i].Some?
  }

  /** The first `n` slots are in use (distinct non-zero keys, each with a child); the rest hold key 0 and nil. */
  ghost predicate Packed<C>(keys: seq<byte>, kids: seq<Option<C>>, n: nat)
  {
    && n <= |keys| == |kids|
    && Distinct(keys, n)
    && Filled(kids, n)
    && (forall i :: 0 <= i < n ==> keys[i] != 0)
    && (forall i :: n <= i < |keys| ==> keys[i] == 0 && kids[i].None?)
  }

  /** `Packed`, with the keys in use in strictly ascending order. */
  ghost predicate Sorted<C>(keys: seq<byte>, kids: seq<Option<C>>, n: nat)
  {
    Packed(keys, kids, n) && Ascending(keys, n)
  }

  /** The byte-to-child map held by the first `n` slots. */
  ghost function Pairs<C>(keys: seq<byte>, kids: seq<Option<C>>, n: nat): map<byte, C>
    requires n <= |keys| && n <= |kids| && Distinct(keys, n) && Filled(kids, n)
  {
    DistinctAll(keys, n);
    map i | 0 <= i < n :: keys[i] := kids[i].value
  }

  lemma PairsAt<C>(keys: seq<byte>, kids: seq<Option<C>>, n: nat, i: nat)
    requires n <= |keys| && n <= |kids| && Distinct(keys, n) && Filled(kids, n)
    requires i < n
    ensures keys[i] in Pairs(keys, kids, n) && Pairs(keys, kids, n)[keys[i]] == kids[i].value
  {
    DistinctAll(keys, n);
  }

  lemma PairsIn<C>(keys: seq<byte>, kids: seq<Option<C>>, n: nat, x: byte) returns (i: nat)
    requires n <= |keys| && n <= |kids| && Distinct(keys, n) && Filled(kids, n)
    requires x in Pairs(keys, kids, n)
    ensures i < n && keys[i] == x
  {
    i :| 0 <= i < n && keys[i] == x;
  }

  /** Extensionality for `Pairs`: slot-wise agreement plus coverage decides the map. */
  lemma PairsEq<C>(keys: seq<byte>, kids: seq<Option<C>>, n: nat, m: map<byte, C>)
    requires n <= |keys| && n <= |kids| && Distinct(keys, n) && Filled(kids, n)
    requires forall i :: 0 <= i < n ==> keys[i] in m && m[keys[i]] == kids[i].value
    requires forall x :: x in m ==> exists i :: 0 <= i < n && keys[i] == x
    ensures Pairs(keys, kids, n) == m
  {
    var p := Pairs(keys, kids, n);
    forall x | x in p
      ensures x in m && p[x] == m[x]
    {
      var i := PairsIn(keys, kids, n, x);
      PairsAt(keys, kids, n, i);
    }
    forall x | x in m
      ensures x in p
    {
      var i :| 0 <= i < n && keys[i] == x;
      PairsAt(keys, kids, n, i);
    }
  }

  /** A byte is in the map exactly when some slot in use holds it. */
  lemma PairsHas<C>(keys: seq<byte>, kids: seq<Option<C>>, n: nat, x: byte)
    requires n <= |keys| && n <= |kids| && Distinct(keys, n) && Filled(kids, n)
    ensures x in Pairs(keys, kids, n) <==> exists i :: 0 <= i < n && keys[i] == x
  {
    if exists i :: 0 <= i < n && keys[i] == x {
      var i :| 0 <= i < n && keys[i] == x;
      PairsAt(keys, kids, n, i);
    }
  }

  /** The map of `n + 1` slots is the map of the first `n` plus the last slot's byte, which is new. */
  lemma PairsSnoc<C>(keys: seq<byte>, kids: seq<Option<C>>, n: nat)
    requires n + 1 <= |keys| && n + 1 <= |kids| && Distinct(keys, n + 1) && Filled(kids, n + 1)
    ensures keys[n] !in Pairs(keys, kids, n)
    ensures Pairs(keys, kids, n + 1) == Pairs(keys, kids, n)[keys[n] := kids[n].value]
  {
    DistinctAll(keys, n + 1);
    PairsHas(keys, kids, n, keys[n]);
    var m := Pairs(keys, kids, n)[keys[n] := kids[n].value];
    forall i | 0 <= i < n + 1
      ensures keys[i] in m && m[keys[i]] == kids[i].value
    {
      if i < n {
        PairsAt(keys, kids, n, i);
      }
    }
    forall x | x in m
      ensures exists i :: 0 <= i < n + 1 && keys[i] == x
    {
      if x != keys[n] {
        var i := PairsIn(keys, kids, n, x);
      }
    }
    PairsEq(keys, kids, n + 1, m);
  }

  /** The map of `n` slots with distinct keys has exactly `n` entries. */
  lemma {:induction false} PairsCard<C>(keys: seq<byte>, kids: seq<Option<C>>, n: nat)
    requires n <= |keys| && n <= |kids| && Distinct(keys, n) && Filled(kids, n)
    ensures |Pairs(keys, kids, n)| == n
  {
    if n > 0 {
      PairsCard(keys, kids, n - 1);
      PairsSnoc(keys, kids, n - 1);
    }
  }

  /** `IndexByte` over a packed layout finds exactly the map's child. */
  lemma IndexBytePacked<C>(keys: seq<byte>, kids: seq<Option<C>>, n: nat, b: byte)
    requires Packed(keys, kids, n)
    ensures var i := IndexByte(keys, b);
            (if i < 0 then None else kids[i]) == MapGet(Pairs(keys, kids, n), b)
  {
    var i := IndexByte(keys, b);
    PairsHas(keys, kids, n, b);
    if 0 <= i < n {
      PairsAt(keys, kids, n, i);
    }
  }

  /**
   * On a sorted layout and a non-zero byte, `search` finds the insertion
   * point: every key before it is smaller, and the key at it (if in use) is
   * at least `b`.
   */
  lemma SearchSorted<C>(keys: seq<byte>, kids: seq<Option<C>>, n: nat, b: byte)
    requires Sorted(keys, kids, n) && b != 0
    ensures Search(keys, n, b) <= n
    ensures forall i :: 0 <= i < Search(keys, n, b) ==> keys[i] < b
    ensures Search(keys, n, b) < n ==> keys[Search(keys, n, b)] >= b
  {
  }

  /** On a sorted layout, `search` lands on a stored byte's own slot. */
  lemma SearchPresent<C>(keys: seq<byte>, kids: seq<Option<C>>, n: nat, b: byte)
    requires Sorted(keys, kids, n) && b in Pairs(keys, kids, n)
    ensures Search(keys, n, b) < n && keys[Search(keys, n, b)] == b
  {
    var i := PairsIn(keys, kids, n, b);
    SearchSorted(keys, kids, n, b);
  }

  /** Overwriting the child of a slot in use updates exactly that byte. */
  lemma Overwrite<C>(keys: seq<byte>, kids: seq<Option<C>>, n: nat, i: nat, c: C)
    requires Packed(keys, kids, n) && i < n
    ensures Packed(keys, kids[i := Some(c)], n)
    ensures Pairs(keys, kids[i := Some(c)], n) == Pairs(keys, kids, n)[keys[i] := c]
  {
    var kids2 := kids[i := Some(c)];
    var m := Pairs(keys, kids, n)[keys[i] := c];
    DistinctAll(keys, n);
    forall j | 0 <= j < n
      ensures keys[j] in m && m[keys[j]] == kids2[j].value
    {
      PairsAt(keys, kids, n, j);
    }
    forall x | x in m
      ensures exists j :: 0 <= j < n && keys[j] == x
    {
      if x != keys[i] {
        var j := PairsIn(keys, kids, n, x);
      }
    }
    PairsEq(keys, kids2, n, m);
  }

  /** Appending an absent non-zero byte in the first unused slot (node.go's Node4 insertion). */
  lemma Append<C>(keys: seq<byte>, kids: seq<Option<C>>, n: nat, b: byte, c: C)
    requires Packed(keys, kids, n) && n < |keys| && b != 0
    requires b !in Pairs(keys, kids, n)
    ensures Packed(keys[n := b], kids[n := Some(c)], n + 1)
    ensures Pairs(keys[n := b], kids[n := Some(c)], n + 1) == Pairs(keys, kids, n)[b := c]
  {
    PairsHas(keys, kids, n, b);
    var keys2, kids2 := keys[n := b], kids[n := Some(c)];
    var m := Pairs(keys, kids, n)[b := c];
    forall i, j | 0 <= i < j < n + 1
      ensures Differ(keys2, i, j)
    {
      if j < n {
        assert Differ(keys, i, j);
      }
    }
    forall j | 0 <= j < n + 1
      ensures keys2[j] in m && m[keys2[j]] == kids2[j].value
    {
      if j < n {
        PairsAt(keys, kids, n, j);
      }
    }
    forall x | x in m
      ensures exists j :: 0 <= j < n + 1 && keys2[j] == x
    {
      if x != b {
        var j := PairsIn(keys, kids, n, x);
        assert keys2[j] == x;
      } else {
        assert keys2[n] == x;
      }
    }
    PairsEq(keys2, kids2, n + 1, m);
  }

  /** Inserting `b` at the `search` position of a sorted layout keeps the keys ascending. */
  lemma InsertAscending<C>(keys: seq<byte>, kids: seq<Option<C>>, n: nat, b: byte, c: C)
    requires Sorted(keys, kids, n) && n < |keys| && b != 0
    requires b !in Pairs(keys, kids, n)
    ensures Search(keys, n, b) < |keys|
    ensures Sorted(ShiftInsert(keys, Search(keys, n, b), b), ShiftInsert(kids, Search(keys, n, b), Some(c)), n + 1)
  {
    SearchSorted(keys, kids, n, b);
    PairsHas(keys, kids, n, b);
    var p := Search(keys, n, b);
    assert p < n ==> keys[p] > b;
    ShiftAscending(keys, n, p, b);
    ShiftPacked(keys, kids, n, p, b, c);
  }

  /** Writing `b` between the keys below it and the keys above it keeps `n + 1` keys ascending. */
  lemma ShiftAscending(keys: seq<byte>, n: nat, p: nat, b: byte)
    requires p <= n < |keys| && Ascending(keys, n)
    requires forall i :: 0 <= i < p ==> keys[i] < b
    requires p < n ==> keys[p] > b
    ensures Ascending(ShiftInsert(keys, p, b), n + 1)
  {
    var keys2 := ShiftInsert(keys, p, b);
    forall i, j | 0 <= i < j < n + 1
      ensures keys2[i] < keys2[j]
    {
      if i < p && j > p {
        assert keys2[i] < b;
      }
    }
  }

  /** Shifting a distinct non-zero byte into a packed layout leaves `n + 1` slots packed. */
  lemma ShiftPacked<C>(keys: seq<byte>, kids: seq<Option<C>>, n: nat, p: nat, b: byte, c: C)
    requires Packed(keys, kids, n) && p <= n < |keys| && b != 0
    requires Distinct(ShiftInsert(keys, p, b), n + 1)
    ensures Packed(ShiftInsert(keys, p, b), ShiftInsert(kids, p, Some(c)), n + 1)
  {
  }

  lemma ShiftSlot<C>(keys: seq<byte>, kids: seq<Option<C>>, n: nat, p: nat, b: byte, c: C, j: nat)
    requires Packed(keys, kids, n) && p <= n < |keys| && j < n + 1
    requires b !in Pairs(keys, kids, n)
    ensures ShiftInsert(kids, p, Some(c))[j].Some?
    ensures ShiftInsert(keys, p, b)[j] in Pairs(keys, kids, n)[b := c]
    ensures (Pairs(keys, kids, n)[b := c])[ShiftInsert(keys, p, b)[j]] == ShiftInsert(kids, p, Some(c))[j].value
  {
    if j < p {
      PairsAt(keys, kids, n, j);
    } else if j > p {
      PairsAt(keys, kids, n, j - 1);
    }
  }

  lemma ShiftCovers<C>(keys: seq<byte>, kids: seq<Option<C>>, n: nat, p: nat, b: byte, c: C, x: byte)
    requires Packed(keys, kids, n) && p <= n < |keys|
    requires x in Pairs(keys, kids, n)[b := c]
    ensures exists j :: 0 <= j < n + 1 && ShiftInsert(keys, p, b)[j] == x
  {
    var keys2 := ShiftInsert(keys, p, b);
    if x == b {
      assert keys2[p] == x;
    } else {
      var i := PairsIn(keys, kids, n, x);
      if i < p {
        assert keys2[i] == x;
      } else {
        assert keys2[i + 1] == x;
      }
    }
  }

  /** Shifting the tail right and writing `b` at `p` adds exactly `b` to the map. */
  lemma ShiftPairs<C>(keys: seq<byte>, kids: seq<Option<C>>, n: nat, p: nat, b: byte, c: C)
    requires Packed(keys, kids, n) && p <= n < |keys|
    requires b !in Pairs(keys, kids, n)
    requires Distinct(ShiftInsert(keys, p, b), n + 1)
    ensures Filled(ShiftInsert(kids, p, Some(c)), n + 1)
    ensures Pairs(ShiftInsert(keys, p, b), ShiftInsert(kids, p, Some(c)), n + 1) == Pairs(keys, kids, n)[b := c]
  {
    var keys2, kids2 := ShiftInsert(keys, p, b), ShiftInsert(kids, p, Some(c));
    var m := Pairs(keys, kids, n)[b := c];
    forall j | 0 <= j < n + 1
      ensures kids2[j].Some? && keys2[j] in m && m[keys2[j]] == kids2[j].value
    {
      ShiftSlot(keys, kids, n, p, b, c, j);
    }
    forall x | x in m
      ensures exists j :: 0 <= j < n + 1 && keys2[j] == x
    {
      ShiftCovers(keys, kids, n, p, b, c, x);
    }
    PairsEq(keys2, kids2, n + 1, m);
  }

  /**
   * Sorted insertion of an absent non-zero byte at the `search` position
   * (edges4.go, edges16.go, node.go's `setNext16`): the layout stays sorted
   * and the map gains exactly `b`.
   */
  lemma SortedInsert<C>(keys: seq<byte>, kids: seq<Option<C>>, n: nat, b: byte, c: C)
    requires Sorted(keys, kids, n) && n < |keys| && b != 0
    requires b !in Pairs(keys, kids, n)
    ensures Search(keys, n, b) < |keys|
    ensures Sorted(ShiftInsert(keys, Search(keys, n, b), b), ShiftInsert(kids, Search(keys, n, b), Some(c)), n + 1)
    ensures Pairs(ShiftInsert(keys, Search(keys, n, b), b), ShiftInsert(kids, Search(keys, n, b), Some(c)), n + 1)
         == Pairs(keys, kids, n)[b := c]
  {
    InsertAscending(keys, kids, n, b, c);
    SearchSorted(keys, kids, n, b);
    ShiftPairs(keys, kids, n, Search(keys, n, b), b, c);
  }

  // ---------------------------------------------------------------------
  // Indexed layout (48 slots behind a 256-entry index table)
  // ---------------------------------------------------------------------

  /** Every index entry points inside (or just past) `m` slots. */
  ghost predicate IndexInRange(index: seq<byte>, m: nat)
  {
    |index| == 256 && forall b :: 0 <= b < 256 ==> index[b] <= m
  }

  /** `next48` (node.go) / `next` (edges48.go): entry 0 is absent, entry `k` is slot `k - 1`. */
  function IndexNext<C>(index: seq<byte>, kids: seq<Option<C>>, b: byte): (r: Option<C>)
    requires |index| == 256 && index[b] <= |kids|
    ensures r.Some? ==> r in kids
  {
    if index[b] == 0 then None else kids[index[b] - 1]
  }

  /**
   * The indexed layout with `n` children: entries lie in 0..n, the non-zero
   * ones are pairwise distinct, slots 0..n-1 hold a child and are each named
   * by some byte, and the remaining slots are nil.
   */
  ghost predicate Indexed<C>(index: seq<byte>, kids: seq<Option<C>>, n: nat)
  {
    && |kids| == 48 && n <= 48
    && IndexInRange(index, n)
    && (forall a, b :: 0 <= a < 256 && 0 <= b < 256 && a != b && index[a] != 0 ==> index[a] != index[b])
    && (forall j :: 0 <= j < n ==> kids[j].Some?)
    && (forall j :: n <= j < 48 ==> kids[j].None?)
    && (forall j :: 0 <= j < n ==> Named(index, j))
  }

  /** Some byte's index entry points at slot `j`. */
  ghost predicate Named(index: seq<byte>, j: nat)
    requires |index| == 256
  {
    exists b :: 0 <= b < 256 && index[b] == j + 1
  }

  /** The byte-to-child map of an index table. */
  ghost function IndexMap<C>(index: seq<byte>, kids: seq<Option<C>>): map<byte, C>
    requires IndexInRange(index, |kids|)
  {
    map b: byte | 0 <= b < 256 && IndexNext(index, kids, b).Some? :: IndexNext(index, kids, b).value
  }

  /** Two index tables whose lookups differ only at `b`, where the second yields `c`. */
  lemma IndexMapUpdate<C>(index: seq<byte>, kids: seq<Option<C>>, index2: seq<byte>, kids2: seq<Option<C>>, b: byte, c: C)
    requires IndexInRange(index, |kids|) && IndexInRange(index2, |kids2|)
    requires IndexNext(index2, kids2, b) == Some(c)
    requires forall x: byte :: x != b ==> IndexNext(index2, kids2, x) == IndexNext(index, kids, x)
    ensures IndexMap(index2, kids2) == IndexMap(index, kids)[b := c]
  {
    var m1, m2 := IndexMap(index, kids)[b := c], IndexMap(index2, kids2);
    forall x: byte
      ensures (x in m2 <==> x in m1) && (x in m2 ==> m2[x] == m1[x])
    {
      if x != b {
        assert IndexNext(index2, kids2, x) == IndexNext(index, kids, x);
      }
    }
  }

  /** Overwriting the slot of a stored byte (`setNext48`, present case). */
  lemma IndexedOverwrite<C>(index: seq<byte>, kids: seq<Option<C>>, n: nat, b: byte, c: C)
    requires Indexed(index, kids, n) && index[b] != 0
    ensures Indexed(index, kids[index[b] - 1 := Some(c)], n)
    ensures IndexMap(index, kids[index[b] - 1 := Some(c)]) == IndexMap(index, kids)[b := c]
  {
    var kids2 := kids[index[b] - 1 := Some(c)];
    forall x: byte | x != b
      ensures IndexNext(index, kids2, x) == IndexNext(index, kids, x)
    {
    }
    IndexMapUpdate(index, kids, index, kids2, b, c);
  }

  /** Claiming the next free slot for an absent byte (`setNext48`, absent case). */
  lemma IndexedAdd<C>(index: seq<byte>, kids: seq<Option<C>>, n: nat, b: byte, c: C)
    requires Indexed(index, kids, n) && index[b] == 0 && n < 48
    ensures Indexed(index[b := n + 1], kids[n := Some(c)], n + 1)
    ensures IndexMap(index[b := n + 1], kids[n := Some(c)]) == IndexMap(index, kids)[b := c]
  {
    var index2, kids2 := index[b := n + 1], kids[n := Some(c)];
    forall j | 0 <= j < n + 1
      ensures Named(index2, j)
    {
      if j < n {
        assert Named(index, j);
        var a :| 0 <= a < 256 && index[a] == j + 1;
        assert index2[a] == j + 1;
      } else {
        assert index2[b] == j + 1;
      }
    }
    forall x: byte | x != b
      ensures IndexNext(index2, kids2, x) == IndexNext(index, kids, x)
    {
    }
    IndexMapUpdate(index, kids, index2, kids2, b, c);
  }

  /** The byte whose index entry names slot `j`. */
  ghost function Namer(index: seq<byte>, j: nat): (b: byte)
    requires |index| == 256 && Named(index, j)
    ensures index[b] == j + 1
  {
    var b: int :| 0 <= b < 256 && index[b] == j + 1; b
  }

  /** An index table with `n` children maps exactly `n` bytes: each slot in use is named by one byte. */
  lemma IndexedCard<C>(index: seq<byte>, kids: seq<Option<C>>, n: nat)
    requires Indexed(index, kids, n)
    ensures |IndexMap(index, kids)| == n
  {
    var names := seq(n, j requires 0 <= j < n && |index| == 256 && Named(index, j) => Namer(index, j));
    var m := IndexMap(index, kids);
    forall i, j | 0 <= i < j < n
      ensures Differ(names, i, j)
    {
      assert index[names[i]] == i + 1 && index[names[j]] == j + 1;
    }
    forall i | 0 <= i < n
      ensures names[i] in m && m[names[i]] == kids[i].value
    {
      assert index[names[i]] == i + 1;
    }
    forall x | x in m
      ensures exists i :: 0 <= i < n && names[i] == x
    {
      var i := index[x] - 1;
      assert index[names[i]] == index[x];
      assert names[i] == x;
    }
    PairsEq(names, kids, n, m);
    PairsCard(names, kids, n);
  }

  /**
   * The index entry a loop `index[keys[i]] = i + 1` (i from 0 to n-1) leaves
   * for `b`: the last such position plus one, or 0.
   */
  function LastPos(keys: seq<byte>, n: nat, b: byte): (r: nat)
    requires n <= |keys|
    ensures r <= n
    ensures r > 0 ==> keys[r - 1] == b
    ensures forall j :: r <= j < n ==> keys[j] != b
  {
    if n == 0 then 0 else if keys[n - 1] == b then n else LastPos(keys, n - 1, b)
  }

  /** The index table `upgrade16` builds from the first `n` slots of a small layout. */
  function Spread(keys: seq<byte>, n: nat): (index: seq<byte>)
    requires n <= |keys| && n < 256
    ensures |index| == 256
  {
    seq(256, b requires 0 <= b < 256 => LastPos(keys, n, b) as byte)
  }

  /** The 48 slots `upgrade16` fills: slot i < n takes child i, the rest are nil. */
  function SpreadKids<C>(kids: seq<Option<C>>, n: nat): (r: seq<Option<C>>)
    requires n <= |kids| && n <= 48
    ensures |r| == 48
  {
    seq(48, j requires 0 <= j < 48 => if j < n then kids[j] else None)
  }

  /** With distinct keys, the entry for a stored byte is its own slot plus one. */
  lemma {:induction false} LastPosAt(keys: seq<byte>, n: nat, i: nat)
    requires n <= |keys| && Distinct(keys, n) && i < n
    ensures LastPos(keys, n, keys[i]) == i + 1
  {
    DistinctAll(keys, n);
    if i < n - 1 {
      LastPosAt(keys, n - 1, i);
    }
  }

  lemma SpreadShape<C>(keys: seq<byte>, kids: seq<Option<C>>, n: nat)
    requires Packed(keys, kids, n) && n <= 48
    ensures Indexed(Spread(keys, n), SpreadKids(kids, n), n)
  {
    var index := Spread(keys, n);
    forall j | 0 <= j < n
      ensures Named(index, j)
    {
      LastPosAt(keys, n, j);
      assert index[keys[j]] == j + 1;
    }
  }

  lemma SpreadLookup<C>(keys: seq<byte>, kids: seq<Option<C>>, n: nat, x: byte)
    requires Packed(keys, kids, n) && n <= 48
    ensures IndexNext(Spread(keys, n), SpreadKids(kids, n), x) == MapGet(Pairs(keys, kids, n), x)
  {
    var index := Spread(keys, n);
    PairsHas(keys, kids, n, x);
    if index[x] != 0 {
      PairsAt(keys, kids, n, index[x] - 1);
    } else if x in Pairs(keys, kids, n) {
      var i := PairsIn(keys, kids, n, x);
      LastPosAt(keys, n, i);
    }
  }

  /**
   * `upgrade16`'s table over a packed layout is a well-formed indexed layout
   * with the same map.
   */
  lemma SpreadIndexed<C>(keys: seq<byte>, kids: seq<Option<C>>, n: nat)
    requires Packed(keys, kids, n) && n <= 48
    ensures Indexed(Spread(keys, n), SpreadKids(kids, n), n)
    ensures IndexMap(Spread(keys, n), SpreadKids(kids, n)) == Pairs(keys, kids, n)
  {
    SpreadShape(keys, kids, n);
    var index, kids2 := Spread(keys, n), SpreadKids(kids, n);
    var m1, m2 := IndexMap(index, kids2), Pairs(keys, kids, n);
    forall x: byte
      ensures (x in m1 <==> x in m2) && (x in m1 ==> m1[x] == m2[x])
    {
      SpreadLookup(keys, kids, n, x);
    }
  }

  // ---------------------------------------------------------------------
  // Direct layout (256 slots)
  // ---------------------------------------------------------------------

  /** The byte-to-child map of a directly indexed slot array. */
  ghost function DirectMap<C>(kids: seq<Option<C>>): map<byte, C>
    requires |kids| == 256
  {
    map b: byte | 0 <= b < 256 && kids[b].Some? :: kids[b].value
  }

  /** The bytes below `k`. */
  ghost function BytesBelow(k: nat): (r: set<byte>)
    requires k <= 256
    ensures |r| == k
    ensures forall b: byte :: b in r <==> b < k
  {
    if k == 0 then {} else BytesBelow(k - 1) + {k - 1}
  }

  lemma {:induction false} SubsetCard(a: set<byte>, b: set<byte>)
    requires a <= b
    ensures |a| <= |b|
    decreases |a|
  {
    if a != {} {
      var x :| x in a;
      SubsetCard(a - {x}, b - {x});
    }
  }

  /** A direct slot array maps at most 256 bytes: it has one slot per byte and no more. */
  lemma DirectCard<C>(kids: seq<Option<C>>)
    requires |kids| == 256
    ensures |DirectMap(kids)| <= 256
  {
    SubsetCard(DirectMap(kids).Keys, BytesBelow(256));
  }

  /** The 256 slots `upgrade48` fills: slot b takes the indexed child of b. */
  function Flatten<C>(index: seq<byte>, kids: seq<Option<C>>): (r: seq<Option<C>>)
    requires IndexInRange(index, |kids|)
    ensures |r| == 256
  {
    seq(256, b requires 0 <= b < 256 => IndexNext(index, kids, b))
  }

  /** `upgrade48` keeps the map. */
  lemma FlattenMap<C>(index: seq<byte>, kids: seq<Option<C>>)
    requires IndexInRange(index, |kids|)
    ensures DirectMap(Flatten(index, kids)) == IndexMap(index, kids)
  {
  }
}
