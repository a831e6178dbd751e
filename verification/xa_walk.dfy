/** The array, its operation state, and the read-only walk from the head to
    the entry for an index (`xas_start`, `xas_descend`, `xas_load`,
    `xa_load`), plus `xa_init_flags`. The state's node pointer becomes the
    path of slot offsets from the head node. */
module XaWalk {
  import opened Bits
  import opened XaEntry
  import opened XaNode

  /** `xa_flags`: the tag-presence flags, and the remaining flag bits kept
      as an opaque number. */
  datatype Flags = Flags(tagged: set<Tag>, other: nat)

  datatype XArray = XArray(flags: Flags, head: Entry)

  /** Where an operation state stands (`xa_node`): not yet walked
      (`XAS_RESTART`), past the end of the array (`XAS_BOUNDS`), an error,
      at the head (`NULL`), or in the node reached by `path` from the head
      node. */
  datatype Cursor = Restart | Bounds | Error(errno: int) | Top | At(path: seq<nat>)

  /** `struct xa_state` without the array pointer, which every operation
      takes separately. */
  datatype XaState = XaState(index: Index, shift: nat, sibs: nat, offset: nat, node: Cursor)

  predicate WF(xa: XArray) {
    WFSlot(xa.head)
  }

  /** `XA_STATE(name, xa, index)`: a single-index state that has not walked. */
  function Fresh(index: Index): XaState {
    XaState(index, 0, 0, 0, Restart)
  }

  /** `xas_valid`: the state stands at the head or in a node. */
  predicate IsValid(xas: XaState) {
    xas.node.Top? || xas.node.At?
  }

  /** `xas_error` */
  predicate IsError(xas: XaState) {
    xas.node.Error?
  }

  /** `xa_tagged` */
  predicate Tagged(xa: XArray, t: Tag) {
    t in xa.flags.tagged
  }

  /** The node a state stands in exists in `xa`. */
  predicate CursorIn(xa: XArray, xas: XaState) {
    xas.node.At? ==>
      && xa.head.NodeRef?
      && PathOk(xa.head.node, xas.node.path)
      && xas.offset < CHUNK_SIZE
  }

  lemma CursorNodeWF(xa: XArray, xas: XaState)
    requires WF(xa) && CursorIn(xa, xas) && xas.node.At?
    ensures WFNode(NodeAt(xa.head.node, xas.node.path))
  {
    NodeAtWF(xa.head.node, xas.node.path);
  }

  /** The entry where a valid state stands; this is what `xas_start` returns
      for a state that has already been walked. */
  function Reload(xa: XArray, xas: XaState): Entry
    requires WF(xa) && CursorIn(xa, xas) && IsValid(xas)
  {
    match xas.node
    case Top => xa.head
    case At(p) =>
      CursorNodeWF(xa, xas);
      NodeAt(xa.head.node, p).slots[xas.offset]
  }

  /** The indices the head reaches: only 0 for an entry stored directly in
      the head, and `CHUNK_SIZE` slots at the top node's shift for a node. */
  predicate InRange(xa: XArray, index: Index) {
    if xa.head.NodeRef? then index < Pow2(xa.head.node.shift + CHUNK_SHIFT) else index == 0
  }

  /** `set_bounds` */
  function SetBounds(xas: XaState): (r: (XaState, Entry))
    ensures !IsValid(r.0) && !IsError(r.0)
    ensures r.0.(node := xas.node) == xas
    ensures r.1 == Null
  {
    (xas.(node := Bounds), Null)
  }

  /** `xas_start`: an already walked state stays where it is; an error state
      returns NULL; otherwise the state moves to the head if the head can
      reach the index, and to the out-of-bounds state with NULL if not. */
  function Start(xa: XArray, xas: XaState): (r: (XaState, Entry))
    requires WF(xa) && CursorIn(xa, xas)
    ensures r.0.(node := xas.node) == xas
    ensures IsValid(xas) ==> r == (xas, Reload(xa, xas))
    ensures IsError(xas) ==> r == (xas, Null)
    ensures !IsValid(xas) && !IsError(xas) ==>
      if InRange(xa, xas.index) then r.0.node == Top && r.1 == xa.head
      else r.0.node == Bounds && r.1 == Null
  {
    if IsValid(xas) then
      (xas, Reload(xa, xas))
    else if IsError(xas) then
      (xas, Null)
    else if !xa.head.NodeRef? then
      if xas.index != 0 then SetBounds(xas) else (xas.(node := Top), xa.head)
    else
      ChunkSplit(xas.index, xa.head.node.shift);
      DivAtLeast(xas.index, Pow2(xa.head.node.shift), CHUNK_SIZE);
      if xas.index / Pow2(xa.head.node.shift) > CHUNK_MASK then SetBounds(xas)
      else (xas.(node := Top), xa.head)
  }

  /** The path of the node that the entry at a valid state would be: the
      head node from the head, the child in the current slot otherwise. */
  function ChildPath(xas: XaState): seq<nat>
    requires IsValid(xas)
  {
    if xas.node.Top? then [] else xas.node.path + [xas.offset]
  }

  /** `xas_descend`: steps into node `n` (found at the state's position) and
      reads the slot for the index. A sibling slot is resolved to its
      canonical slot: the state's offset becomes the sibling's target and the
      index moves back to the first index of the multi-index entry. */
  function Descend(xas: XaState, n: Node): (r: (XaState, Entry))
    requires WFNode(n) && IsValid(xas)
    ensures r.0.node == At(ChildPath(xas))
    ensures r.0.shift == xas.shift && r.0.sibs == xas.sibs
    ensures r.0.offset < CHUNK_SIZE && r.1 == n.slots[r.0.offset]
    ensures WFSlot(r.1)
    ensures GetOffset(r.0.index, n.shift) == r.0.offset
    ensures var o := GetOffset(xas.index, n.shift);
      if n.slots[o].Sibling? then
        && r.0.offset == n.slots[o].target
        && r.0.index <= xas.index
        && r.0.index % Pow2(n.shift) == 0
        && r.0.index / Pow2(n.shift + CHUNK_SHIFT) == xas.index / Pow2(n.shift + CHUNK_SHIFT)
      else
        r.0.offset == o && r.0.index == xas.index
  {
    var o := GetOffset(xas.index, n.shift);
    var x1 := xas.(node := At(ChildPath(xas)));
    SlotFacts(n, o);
    if n.slots[o].Sibling? then
      var k := n.slots[o].target;
      MoveIndexBackward(xas.index, n.shift, k);
      (x1.(index := MoveIndex(xas.index, n.shift, k), offset := k), n.slots[k])
    else
      (x1.(offset := o), n.slots[o])
  }

  /** The loop of `xas_load`: descend while the entry is a node at or above
      the state's resolution (`xa_shift`). The walk ends at an entry that is
      not a node, or at a node below the resolution. */
  function Walk(xas: XaState, e: Entry): (r: (XaState, Entry))
    requires e.NodeRef? ==> WFNode(e.node) && IsValid(xas)
    ensures r.0.shift == xas.shift && r.0.sibs == xas.sibs
    ensures r.1.NodeRef? ==> r.1.node.shift < xas.shift && WFNode(r.1.node)
    ensures IsValid(xas) ==> IsValid(r.0)
    ensures xas.node.At? || (e.NodeRef? && e.node.shift >= xas.shift) ==> r.0.node.At?
    ensures r.1 == e || WFSlot(r.1)
    ensures !e.NodeRef? ==> r == (xas, e)
    decreases e
  {
    match e
    case NodeRef(n) =>
      if xas.shift > n.shift then (xas, e)
      else
        var (x2, e2) := Descend(xas, n);
        Walk(x2, e2)
    case _ => (xas, e)
  }

  /** `xas_load`: start the walk, then descend. It never changes the array
      (the array is not among its results); from a state that has not been
      walked it returns NULL with the out-of-bounds state for an index the
      head cannot reach; in an error state it does nothing. */
  function Load(xa: XArray, xas: XaState): (r: (XaState, Entry))
    requires WF(xa) && CursorIn(xa, xas)
    ensures r.0.shift == xas.shift && r.0.sibs == xas.sibs
    ensures r.1.NodeRef? ==> r.1.node.shift < xas.shift
    ensures IsError(xas) ==> r == (xas, Null)
    ensures !IsValid(xas) && !IsError(xas) && !InRange(xa, xas.index) ==>
      r == (xas.(node := Bounds), Null)
    ensures !IsValid(xas) && !IsError(xas) && InRange(xa, xas.index) ==>
      IsValid(r.0) && WFSlot(r.1)
  {
    var (x1, e1) := Start(xa, xas);
    if x1.node.At? then CursorNodeWF(xa, x1); ChildWFAt(xa, x1, e1); Walk(x1, e1)
    else Walk(x1, e1)
  }

  lemma ChildWFAt(xa: XArray, xas: XaState, e: Entry)
    requires WF(xa) && CursorIn(xa, xas) && xas.node.At?
    requires WFNode(NodeAt(xa.head.node, xas.node.path))
    requires e == NodeAt(xa.head.node, xas.node.path).slots[xas.offset]
    ensures e.NodeRef? ==> WFNode(e.node)
  {
    if e.NodeRef? {
      ChildWF(NodeAt(xa.head.node, xas.node.path), xas.offset);
    }
  }

  /** `xa_load`: the entry stored at `index`, or NULL. A single pass of
      `xas_load` from a fresh state; it always ends at an entry that is not a
      node, and at NULL for any index the head does not reach. */
  function XaLoad(xa: XArray, index: Index): (r: Entry)
    requires WF(xa)
    ensures WFSlot(r) && !r.NodeRef?
    ensures !InRange(xa, index) ==> r == Null
  {
    Load(xa, Fresh(index)).1
  }

  /** `xa_init_flags`: an empty array with the given flags; every index
      loads NULL. */
  function InitFlags(flags: Flags): (xa: XArray)
    ensures WF(xa) && xa.flags == flags
    ensures forall index: Index :: XaLoad(xa, index) == Null
  {
    XArray(flags, Null)
  }

  // ---- where a walk stands ----

  /** `e` is the entry at the place the state stands. */
  predicate Consistent(xa: XArray, xas: XaState, e: Entry)
    requires WF(xa)
  {
    && CursorIn(xa, xas)
    && match xas.node
       case Top => e == xa.head
       case At(p) =>
         CursorNodeWF(xa, xas);
         e == NodeAt(xa.head.node, p).slots[xas.offset]
       case _ => e == Null
  }

  lemma DescendConsistent(xa: XArray, xas: XaState, n: Node)
    requires WF(xa) && Consistent(xa, xas, NodeRef(n)) && WFNode(n)
    ensures IsValid(xas)
    ensures PathOk(xa.head.node, ChildPath(xas)) && NodeAt(xa.head.node, ChildPath(xas)) == n
    ensures Consistent(xa, Descend(xas, n).0, Descend(xas, n).1)
  {
    if xas.node.At? {
      CursorNodeWF(xa, xas);
      PathSnoc(xa.head.node, xas.node.path, xas.offset);
    }
  }

  /** A walk from a consistent state ends at a consistent state; if it moved,
      it ended in a node at or above the state's resolution, so a node it
      returns is the first one below that resolution. */
  lemma {:induction false} WalkConsistent(xa: XArray, xas: XaState, e: Entry)
    requires WF(xa) && Consistent(xa, xas, e)
    requires e.NodeRef? ==> WFNode(e.node)
    ensures Consistent(xa, Walk(xas, e).0, Walk(xas, e).1)
    ensures Walk(xas, e).0.node != xas.node ==>
      && Walk(xas, e).0.node.At?
      && NodeAt(xa.head.node, Walk(xas, e).0.node.path).shift >= xas.shift
    decreases e
  {
    if e.NodeRef? && xas.shift <= e.node.shift {
      DescendConsistent(xa, xas, e.node);
      var (x2, e2) := Descend(xas, e.node);
      WalkConsistent(xa, x2, e2);
      if xas.node.At? {
        assert x2.node.path == xas.node.path + [xas.offset];
      }
    }
  }

  /** The state `xa_load` ends in for `index`. */
  function LoadState(xa: XArray, index: Index): XaState
    requires WF(xa)
  {
    Load(xa, Fresh(index)).0
  }

  /** After `xas_load` from a fresh state the state stands exactly where the
      returned entry is stored (or out of bounds with NULL). */
  lemma LoadConsistent(xa: XArray, index: Index)
    requires WF(xa)
    ensures Consistent(xa, LoadState(xa, index), XaLoad(xa, index))
    ensures LoadState(xa, index).shift == 0
    ensures IsValid(LoadState(xa, index)) || LoadState(xa, index).node == Bounds
    ensures LoadState(xa, index).node.Top? ==> LoadState(xa, index).offset == 0
  {
    var (x1, e1) := Start(xa, Fresh(index));
    WalkConsistent(xa, x1, e1);
  }

  // ---- the walk does not read tag bits ----

  /** In trees that differ only in tag bits the walk visits the same states
      and finds entries that differ only in tag bits. */
  lemma {:induction false} WalkAgree(xas: XaState, e1: Entry, e2: Entry, ts: set<Tag>)
    requires e1.NodeRef? ==> WFNode(e1.node) && IsValid(xas)
    requires e2.NodeRef? ==> WFNode(e2.node) && IsValid(xas)
    requires AgreeEntry(e1, e2, ts)
    ensures Walk(xas, e1).0 == Walk(xas, e2).0
    ensures AgreeEntry(Walk(xas, e1).1, Walk(xas, e2).1, ts)
    decreases e1
  {
    if e1.NodeRef? {
      var n1, n2 := e1.node, e2.node;
      if xas.shift <= n1.shift {
        var o := GetOffset(xas.index, n1.shift);
        SlotFacts(n1, o);
        assert AgreeEntry(n1.slots[o], n2.slots[o], ts);
        if n1.slots[o].Sibling? {
          var k := n1.slots[o].target;
          assert AgreeEntry(n1.slots[k], n2.slots[k], ts);
        }
        var (x1, f1) := Descend(xas, n1);
        var (x2, f2) := Descend(xas, n2);
        WalkAgree(x1, f1, f2, ts);
      }
    }
  }

  /** `xa_load` does not read tag bits: arrays that differ only in tag bits
      load the same entry at every index, reaching it by the same state. */
  lemma LoadAgree(xa1: XArray, xa2: XArray, index: Index, ts: set<Tag>)
    requires WF(xa1) && WF(xa2) && AgreeEntry(xa1.head, xa2.head, ts)
    ensures LoadState(xa1, index) == LoadState(xa2, index)
    ensures XaLoad(xa1, index) == XaLoad(xa2, index)
  {
    var (x1, e1) := Start(xa1, Fresh(index));
    var (x2, e2) := Start(xa2, Fresh(index));
    WalkAgree(x1, e1, e2, ts);
  }
}
