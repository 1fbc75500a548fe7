/**
 * The tag-dispatched `edges` struct of node.go (node.go:18-23, 56-85,
 * 143-326), as a value.  One struct carries all four layouts; `ntype` says
 * which one is in force:
 *
 *   Node4   4 key bytes and 4 slots, filled by appending (unsorted);
 *   Node16  16 key bytes and 16 slots, kept sorted, looked up by bisection;
 *   Node48  a 256-entry index table and 48 slots;
 *   Node256 no keys and 256 slots indexed by the byte.
 *
 * The functions below follow the Go code branch for branch, including its
 * quirks (byte 0 in the small layouts, the `uint8` child counter).  `Valid`
 * and `Abs` give each layout's invariant and its byte-to-child map, and the
 * lemmas state what each operation does to that map.
 */
module NodeEdges {
  import opened Types
  import opened Slots

  const Node4: nat := 0
  const Node16: nat := 1
  const Node48: nat := 2
  const Node256: nat := 3

  /** node.go's `edges`: layout tag, key bytes, child slots (nil-able) and child count. */
  datatype EdgeSet<C> = EdgeSet(ntype: nat, keys: seq<byte>, kids: seq<Option<C>>, children: nat)

  /** `newEdges4` (node.go:56-62). */
  function NewEdges4<C>(): EdgeSet<C>
  {
    EdgeSet(Node4, seq(4, _ => 0), seq(4, _ => None), 0)
  }

  /** `newEdges16` (node.go:64-70). */
  function NewEdges16<C>(): EdgeSet<C>
  {
    EdgeSet(Node16, seq(16, _ => 0), seq(16, _ => None), 0)
  }

  /** `newEdges48` (node.go:72-78). */
  function NewEdges48<C>(): EdgeSet<C>
  {
    EdgeSet(Node48, seq(256, _ => 0), seq(48, _ => None), 0)
  }

  /** `newEdges256` (node.go:80-85); the key slice stays nil. */
  function NewEdges256<C>(): EdgeSet<C>
  {
    EdgeSet(Node256, [], seq(256, _ => None), 0)
  }

  /** The empty edge set of layout `size`, as `newNode` builds it. */
  function NewEdges<C>(size: nat): EdgeSet<C>
    requires size <= Node256
  {
    if size == Node4 then NewEdges4()
    else if size == Node16 then NewEdges16()
    else if size == Node48 then NewEdges48()
    else NewEdges256()
  }

  /** The array sizes and bounds that every read of node.go relies on. */
  ghost predicate Shaped<C>(e: EdgeSet<C>)
  {
    && e.ntype <= Node256
    && e.children < 256
    && (e.ntype == Node4 ==> |e.keys| == 4 && |e.kids| == 4)
    && (e.ntype == Node16 ==> |e.keys| == 16 && |e.kids| == 16 && e.children <= 16)
    && (e.ntype == Node48 ==> |e.kids| == 48 && IndexInRange(e.keys, 48))
    && (e.ntype == Node256 ==> |e.kids| == 256)
  }

  // ---------------------------------------------------------------------
  // Lookups (node.go:143-190)
  // ---------------------------------------------------------------------

  /** `next4`: the slot of the first key equal to `b` among all four. */
  function Next4<C>(e: EdgeSet<C>, b: byte): (r: Option<C>)
    requires |e.keys| == 4 && |e.kids| == 4
    ensures r.Some? ==> r in e.kids
  {
    var i := IndexByte(e.keys, b);
    if i < 0 then None else e.kids[i]
  }

  /** `next16`: bisect the first `children` keys, then check the key found. */
  function Next16<C>(e: EdgeSet<C>, b: byte): (r: Option<C>)
    requires |e.keys| == 16 && |e.kids| == 16 && e.children <= 16
    ensures r.Some? ==> r in e.kids
  {
    var i := SortSearch(e.keys, b, 0, e.children);
    if i == 16 then None
    else if e.keys[i] != b then None
    else e.kids[i]
  }

  /** `next`: dispatch on the layout tag; anything past Node48 reads slot `b`. */
  function Next<C>(e: EdgeSet<C>, b: byte): (r: Option<C>)
    requires Shaped(e)
    ensures r.Some? ==> r in e.kids
  {
    if e.ntype == Node4 then Next4(e, b)
    else if e.ntype == Node16 then Next16(e, b)
    else if e.ntype == Node48 then IndexNext(e.keys, e.kids, b)
    else e.kids[b]
  }

  // ---------------------------------------------------------------------
  // In-place insertion (node.go:192-240)
  // ---------------------------------------------------------------------

  /** `setNext4`: overwrite the first slot whose key is `b`, else append at `children`. */
  function SetNext4<C>(e: EdgeSet<C>, b: byte, c: Option<C>): (r: EdgeSet<C>)
    requires |e.keys| == 4 && |e.kids| == 4
    requires IndexByte(e.keys, b) >= 0 || e.children < 4
  {
    var i := IndexByte(e.keys, b);
    if i >= 0 then e.(kids := e.kids[i := c])
    else e.(keys := e.keys[e.children := b], kids := e.kids[e.children := c], children := e.children + 1)
  }

  /** `setNext16`: overwrite at the `search` position, or shift slots 15..p+1 right and insert at p. */
  function SetNext16<C>(e: EdgeSet<C>, b: byte, c: Option<C>): (r: EdgeSet<C>)
    requires |e.keys| == 16 && |e.kids| == 16
    requires Search(e.keys, e.children, b) < 16
    ensures |r.keys| == 16 && |r.kids| == 16 && r.ntype == e.ntype
    ensures r.children <= e.children + 1
  {
    var p := Search(e.keys, e.children, b);
    if e.keys[p] == b then e.(kids := e.kids[p := c])
    else e.(keys := ShiftInsert(e.keys, p, b), kids := ShiftInsert(e.kids, p, c), children := e.children + 1)
  }

  /** `setNext48`: overwrite the indexed slot, or claim slot `children` for `b`. */
  function SetNext48<C>(e: EdgeSet<C>, b: byte, c: Option<C>): (r: EdgeSet<C>)
    requires |e.kids| == 48 && IndexInRange(e.keys, 48)
    requires e.keys[b] != 0 || e.children < 48
  {
    if e.keys[b] != 0 then e.(kids := e.kids[e.keys[b] - 1 := c])
    else e.(keys := e.keys[b := e.children + 1], kids := e.kids[e.children := c], children := e.children + 1)
  }

  /** `setNext256`: write slot `b`, counting it (in a `uint8`) when it was nil. */
  function SetNext256<C>(e: EdgeSet<C>, b: byte, c: Option<C>): (r: EdgeSet<C>)
    requires |e.kids| == 256
  {
    var n := if e.kids[b].None? then (e.children + 1) % 256 else e.children;
    e.(kids := e.kids[b := c], children := n)
  }

  /** What the layout-specific `setNext` needs to stay inside its arrays. */
  ghost predicate CanSet<C>(e: EdgeSet<C>, b: byte)
  {
    && Shaped(e)
    && (e.ntype == Node4 ==> IndexByte(e.keys, b) >= 0 || e.children < 4)
    && (e.ntype == Node16 ==> Search(e.keys, e.children, b) < 16)
    && (e.ntype == Node48 ==> e.keys[b] != 0 || e.children < 48)
  }

  /** The `switch ntype` of `swapNext` and `setNext` (node.go:104-113, 129-138). */
  function SetNext<C>(e: EdgeSet<C>, b: byte, c: C): (r: EdgeSet<C>)
    requires CanSet(e, b)
  {
    if e.ntype == Node4 then SetNext4(e, b, Some(c))
    else if e.ntype == Node16 then SetNext16(e, b, Some(c))
    else if e.ntype == Node48 then SetNext48(e, b, Some(c))
    else SetNext256(e, b, Some(c))
  }

  // ---------------------------------------------------------------------
  // Growth (node.go:242-312)
  // ---------------------------------------------------------------------

  /** `full`: the layout's capacity is reached; Node256 never is. */
  function Full<C>(e: EdgeSet<C>): bool
  {
    if e.ntype == Node4 then e.children == 4
    else if e.ntype == Node16 then e.children == 16
    else if e.ntype == Node48 then e.children == 48
    else false
  }

  /** The loop of `upgrade4` from slot `i` on: `setNext16(keys[i], edges[i])` into `acc`. */
  function Upgrade4From<C>(e: EdgeSet<C>, i: nat, acc: EdgeSet<C>): (r: EdgeSet<C>)
    requires |e.keys| == 4 && |e.kids| == 4 && i <= 4
    requires |acc.keys| == 16 && |acc.kids| == 16 && acc.children <= i
    ensures |r.keys| == 16 && |r.kids| == 16 && r.ntype == acc.ntype
    decreases 4 - i
  {
    if i == 4 then acc
    else Upgrade4From(e, i + 1, SetNext16(acc, e.keys[i], e.kids[i]))
  }

  /** `upgrade4`: re-insert the four slots into a fresh Node16. */
  function Upgrade4<C>(e: EdgeSet<C>): EdgeSet<C>
    requires |e.keys| == 4 && |e.kids| == 4
  {
    Upgrade4From(e, 0, NewEdges16())
  }

  /** `upgrade16`: `keys48[keys[i]] = i + 1` and `edges48[i] = edges[i]` for i < children. */
  function Upgrade16<C>(e: EdgeSet<C>): EdgeSet<C>
    requires |e.keys| == 16 && |e.kids| == 16 && e.children <= 16
  {
    EdgeSet(Node48, Spread(e.keys, e.children), SpreadKids(e.kids, e.children), 0)
  }

  /** `upgrade48`: slot b of the new Node256 takes the indexed child of b. */
  function Upgrade48<C>(e: EdgeSet<C>): EdgeSet<C>
    requires IndexInRange(e.keys, |e.kids|)
  {
    EdgeSet(Node256, [], Flatten(e.keys, e.kids), 0)
  }

  /** `upgrade`: move one layout up and carry the child count (node.go:254). */
  function Upgrade<C>(e: EdgeSet<C>): EdgeSet<C>
    requires Shaped(e) && e.ntype < Node256
  {
    var u := if e.ntype == Node4 then Upgrade4(e)
             else if e.ntype == Node16 then Upgrade16(e)
             else Upgrade48(e);
    u.(children := e.children)
  }

  // ---------------------------------------------------------------------
  // Invariant and abstraction
  // ---------------------------------------------------------------------

  /** The layout invariant each `ntype` keeps. */
  ghost predicate Valid<C>(e: EdgeSet<C>)
  {
    if e.ntype == Node4 then |e.keys| == 4 && Packed(e.keys, e.kids, e.children)
    else if e.ntype == Node16 then |e.keys| == 16 && Sorted(e.keys, e.kids, e.children)
    else if e.ntype == Node48 then Indexed(e.keys, e.kids, e.children)
    else e.ntype == Node256 && e.keys == [] && |e.kids| == 256 && e.children < 256
  }

  lemma ValidShaped<C>(e: EdgeSet<C>)
    requires Valid(e)
    ensures Shaped(e)
  {
  }

  /** The byte-to-child map an edge set stands for. */
  ghost function Abs<C>(e: EdgeSet<C>): map<byte, C>
    requires Valid(e)
  {
    if e.ntype == Node4 || e.ntype == Node16 then Pairs(e.keys, e.kids, e.children)
    else if e.ntype == Node48 then IndexMap(e.keys, e.kids)
    else DirectMap(e.kids)
  }

  /** The number of children a layout holds when `full` says so. */
  function Capacity(ntype: nat): nat
  {
    if ntype == Node4 then 4 else if ntype == Node16 then 16 else 48
  }

  // ---------------------------------------------------------------------
  // What the operations do to the map
  // ---------------------------------------------------------------------

  lemma Next16Abs<C>(e: EdgeSet<C>, b: byte)
    requires e.ntype == Node16 && Valid(e)
    ensures Next16(e, b) == MapGet(Pairs(e.keys, e.kids, e.children), b)
  {
    var n := e.children;
    SortSearchSorted(e.keys, b, 0, n, n);
    var i := SortSearch(e.keys, b, 0, n);
    PairsHas(e.keys, e.kids, n, b);
    if b in Pairs(e.keys, e.kids, n) {
      var k := PairsIn(e.keys, e.kids, n, b);
      assert e.keys[..n][k] == b;
      assert i == k;
      PairsAt(e.keys, e.kids, n, k);
    }
  }

  /** `next` answers the map's child for every byte, byte 0 included. */
  lemma NextAbs<C>(e: EdgeSet<C>, b: byte)
    requires Valid(e)
    ensures Shaped(e) && Next(e, b) == MapGet(Abs(e), b)
  {
    if e.ntype == Node4 {
      IndexBytePacked(e.keys, e.kids, e.children, b);
    } else if e.ntype == Node16 {
      Next16Abs(e, b);
    }
  }

  lemma SetNext4Abs<C>(e: EdgeSet<C>, b: byte, c: C)
    requires e.ntype == Node4 && Valid(e) && b != 0
    requires b in Abs(e) || !Full(e)
    ensures CanSet(e, b)
    ensures Valid(SetNext4(e, b, Some(c))) && SetNext4(e, b, Some(c)).ntype == e.ntype
    ensures Abs(SetNext4(e, b, Some(c))) == Abs(e)[b := c]
    ensures SetNext4(e, b, Some(c)).children == if b in Abs(e) then e.children else e.children + 1
  {
    var n := e.children;
    var i := IndexByte(e.keys, b);
    PairsHas(e.keys, e.kids, n, b);
    if b in Abs(e) {
      var k := PairsIn(e.keys, e.kids, n, b);
      DistinctAll(e.keys, n);
      assert i == k;
      Overwrite(e.keys, e.kids, n, i, c);
    } else {
      assert i < 0;
      Append(e.keys, e.kids, n, b, c);
    }
  }

  lemma SetNext16Abs<C>(e: EdgeSet<C>, b: byte, c: C)
    requires e.ntype == Node16 && Valid(e) && b != 0
    requires b in Abs(e) || !Full(e)
    ensures CanSet(e, b)
    ensures Valid(SetNext16(e, b, Some(c))) && SetNext16(e, b, Some(c)).ntype == e.ntype
    ensures Abs(SetNext16(e, b, Some(c))) == Abs(e)[b := c]
    ensures SetNext16(e, b, Some(c)).children == if b in Abs(e) then e.children else e.children + 1
  {
    var n := e.children;
    var p := Search(e.keys, n, b);
    if b in Abs(e) {
      SearchPresent(e.keys, e.kids, n, b);
      Overwrite(e.keys, e.kids, n, p, c);
    } else {
      SortedInsert(e.keys, e.kids, n, b, c);
      SearchSorted(e.keys, e.kids, n, b);
      if p < n {
        PairsAt(e.keys, e.kids, n, p);
      }
      assert e.keys[p] != b;
    }
  }

  /**
   * The two layouts part ways on the same input: into slots keyed "a", "c",
   * `setNext4` appends "b" after them, while `setNext16` shifts "c" up and
   * puts "b" between.
   */
  lemma SetNextOrder<C>(x: C, y: C, z: C)
    ensures SetNext4(EdgeSet(Node4, [97, 99, 0, 0], [Some(x), Some(y), None, None], 2), 98, Some(z))
      == EdgeSet(Node4, [97, 99, 98, 0], [Some(x), Some(y), Some(z), None], 3)
    ensures var e := EdgeSet(Node16, [97, 99] + seq(14, _ => 0), [Some(x), Some(y)] + seq(14, _ => None), 2);
      SetNext16(e, 98, Some(z))
      == EdgeSet(Node16, [97, 98, 99] + seq(13, _ => 0), [Some(x), Some(z), Some(y)] + seq(13, _ => None), 3)
  {
  }

  lemma SetNext48Abs<C>(e: EdgeSet<C>, b: byte, c: C)
    requires e.ntype == Node48 && Valid(e)
    requires b in Abs(e) || !Full(e)
    ensures CanSet(e, b)
    ensures Valid(SetNext48(e, b, Some(c))) && SetNext48(e, b, Some(c)).ntype == e.ntype
    ensures Abs(SetNext48(e, b, Some(c))) == Abs(e)[b := c]
    ensures SetNext48(e, b, Some(c)).children == if b in Abs(e) then e.children else e.children + 1
  {
    if e.keys[b] != 0 {
      IndexedOverwrite(e.keys, e.kids, e.children, b, c);
    } else {
      IndexedAdd(e.keys, e.kids, e.children, b, c);
    }
  }

  lemma SetNext256Abs<C>(e: EdgeSet<C>, b: byte, c: C)
    requires e.ntype == Node256 && Valid(e)
    ensures CanSet(e, b)
    ensures Valid(SetNext256(e, b, Some(c))) && SetNext256(e, b, Some(c)).ntype == e.ntype
    ensures Abs(SetNext256(e, b, Some(c))) == Abs(e)[b := c]
    ensures SetNext256(e, b, Some(c)).children == if b in Abs(e) then e.children else (e.children + 1) % 256
  {
    var m1, m2 := Abs(e)[b := c], Abs(SetNext256(e, b, Some(c)));
    forall x: byte
      ensures (x in m2 <==> x in m1) && (x in m2 ==> m2[x] == m1[x])
    {
    }
  }

  /**
   * `setNext` on a valid edge set, for a byte that is stored or fits, keeps
   * the layout valid and updates the map at `b` alone; the child count grows
   * (as a `uint8`) exactly when `b` is new.  The small layouts need a new
   * `b` to be non-zero, because their unused slots hold key 0.
   */
  lemma SetNextAbs<C>(e: EdgeSet<C>, b: byte, c: C)
    requires Valid(e)
    requires e.ntype <= Node16 && b !in Abs(e) ==> b != 0
    requires b in Abs(e) || !Full(e)
    ensures CanSet(e, b)
    ensures Valid(SetNext(e, b, c)) && SetNext(e, b, c).ntype == e.ntype
    ensures Abs(SetNext(e, b, c)) == Abs(e)[b := c]
    ensures SetNext(e, b, c).children == if b in Abs(e) then e.children else (e.children + 1) % 256
  {
    if e.ntype <= Node16 && b in Abs(e) {
      var k := PairsIn(e.keys, e.kids, e.children, b);
      assert e.keys[k] == b;
    }
    if e.ntype == Node4 {
      SetNext4Abs(e, b, c);
    } else if e.ntype == Node16 {
      SetNext16Abs(e, b, c);
    } else if e.ntype == Node48 {
      SetNext48Abs(e, b, c);
    } else {
      SetNext256Abs(e, b, c);
    }
  }

  /** Each round of `upgrade4`'s loop adds the next Node4 slot to the Node16 being built. */
  lemma {:induction false} Upgrade4FromAbs<C>(e: EdgeSet<C>, i: nat, acc: EdgeSet<C>)
    requires e.ntype == Node4 && Valid(e) && e.children == 4 && i <= 4
    requires acc.ntype == Node16 && Valid(acc) && acc.children == i
    requires Abs(acc) == Pairs(e.keys, e.kids, i)
    ensures Valid(Upgrade4From(e, i, acc)) && Upgrade4From(e, i, acc).ntype == Node16
    ensures Upgrade4From(e, i, acc).children == 4
    ensures Abs(Upgrade4From(e, i, acc)) == Abs(e)
    decreases 4 - i
  {
    if i < 4 {
      var b, c := e.keys[i], e.kids[i].value;
      PairsHas(e.keys, e.kids, i, b);
      SetNext16Abs(acc, b, c);
      PairsSnoc(e.keys, e.kids, i);
      Upgrade4FromAbs(e, i + 1, SetNext16(acc, b, Some(c)));
    }
  }

  /**
   * `upgrade` of a full edge set moves one layout up, keeps the child count
   * and keeps every byte's child.
   */
  lemma UpgradeAbs<C>(e: EdgeSet<C>)
    requires Valid(e) && Full(e)
    ensures Shaped(e) && e.ntype < Node256
    ensures Valid(Upgrade(e)) && Upgrade(e).ntype == e.ntype + 1
    ensures Upgrade(e).children == e.children
    ensures Abs(Upgrade(e)) == Abs(e)
  {
    if e.ntype == Node4 {
      var empty: EdgeSet<C> := NewEdges16();
      assert Pairs(e.keys, e.kids, 0) == map[];
      assert Abs(empty) == map[];
      Upgrade4FromAbs(e, 0, empty);
    } else if e.ntype == Node16 {
      SpreadIndexed(e.keys, e.kids, e.children);
    } else {
      FlattenMap(e.keys, e.kids);
    }
  }

  /**
   * In Node4, Node16 and Node48, `full` holds exactly when the map has
   * reached the layout's capacity; a Node256 is never full, whatever it maps.
   */
  lemma FullAbs<C>(e: EdgeSet<C>)
    requires Valid(e)
    ensures e.ntype != Node256 ==> (Full(e) <==> |Abs(e)| == Capacity(e.ntype))
    ensures e.ntype == Node256 ==> !Full(e) && |Abs(e)| <= 256
  {
    if e.ntype <= Node16 {
      PairsCard(e.keys, e.kids, e.children);
    } else if e.ntype == Node48 {
      IndexedCard(e.keys, e.kids, e.children);
    } else {
      DirectCard(e.kids);
    }
  }

  /** A valid edge set offers room for `b` whenever `b` is stored or the set is not full. */
  lemma ValidCanSet<C>(e: EdgeSet<C>, b: byte)
    requires Valid(e) && (b in Abs(e) || !Full(e))
    ensures CanSet(e, b)
  {
    if e.ntype <= Node16 && b in Abs(e) {
      var k := PairsIn(e.keys, e.kids, e.children, b);
      assert e.keys[k] == b;
    }
  }

  /** An empty edge set of any layout is valid and maps nothing. */
  lemma NewEdgesEmpty<C>(size: nat)
    requires size <= Node256
    ensures Valid(NewEdges<C>(size)) && NewEdges<C>(size).ntype == size
    ensures Abs(NewEdges<C>(size)) == map[]
  {
    var e: EdgeSet<C> := NewEdges(size);
    if size <= Node16 {
      assert Pairs(e.keys, e.kids, 0) == map[];
    } else if size == Node48 {
      assert IndexMap(e.keys, e.kids) == map[];
    } else {
      assert DirectMap(e.kids) == map[];
    }
  }
}
