/** Radix-tree nodes of the XArray: entries, nodes with a fixed number of
    slots and one tag bitmap per tag class, the index arithmetic that picks
    a node's slot for an index, and paths of offsets that stand in for the
    parent pointers of the original structure. */
module XaNode {
  import opened Bits
  import opened XaEntry

  /** Bits of the index consumed per tree level. */
  const CHUNK_SHIFT: nat := 6
  const CHUNK_SIZE: nat := 64
  const CHUNK_MASK: nat := CHUNK_SIZE - 1
  /** Number of tag classes (`XA_TAG_0`, `XA_TAG_1`, `XA_TAG_2`). */
  const MAX_TAGS: nat := 3

  type Tag = t: nat | t < MAX_TAGS
  type Index = Word

  /** What a slot, or the head of the array, holds. `Item` is a non-NULL
      pointer or value word; the internal entries are explicit variants: a
      sibling names the slot in the same node holding the canonical entry
      of a multi-index entry, and `NodeRef` is a child node. */
  datatype Entry =
    | Null
    | Item(word: Word)
    | Sibling(target: nat)
    | NodeRef(node: Node)

  /** `tags[t]` is the set of slot offsets whose bit of class `t` is set. */
  datatype Node = Node(shift: nat, slots: seq<Entry>, tags: seq<set<nat>>)

  lemma ChunkSizeIsPow2()
    ensures CHUNK_SIZE == Pow2(CHUNK_SHIFT)
  {
  }

  /** The digits of an index in base `CHUNK_SIZE` above position `shift`. */
  lemma ChunkSplit(index: nat, shift: nat)
    ensures Pow2(shift + CHUNK_SHIFT) == Pow2(shift) * CHUNK_SIZE
    ensures index / Pow2(shift)
         == index / Pow2(shift + CHUNK_SHIFT) * CHUNK_SIZE + (index / Pow2(shift)) % CHUNK_SIZE
  {
    Pow2Add(shift, CHUNK_SHIFT);
    ChunkSizeIsPow2();
    DivDiv(index, Pow2(shift), CHUNK_SIZE);
  }

  /** `get_offset`: the slot of a node at `shift` that covers `index`. It is
      the base-`CHUNK_SIZE` digit of the index at that level. */
  function GetOffset(index: Index, shift: nat): (o: nat)
    ensures o < CHUNK_SIZE
    ensures index / Pow2(shift) == index / Pow2(shift + CHUNK_SHIFT) * CHUNK_SIZE + o
  {
    ChunkSplit(index, shift);
    (index / Pow2(shift)) % CHUNK_SIZE
  }

  /** The word computed by `xas_move_index` before truncation: the index with
      every bit below `shift + CHUNK_SHIFT` cleared (the mask is
      `~CHUNK_MASK` shifted left, not the complement of a shifted mask), plus
      `offset` placed at `shift`. */
  function MovedIndex(index: Index, shift: nat, offset: nat): nat {
    var span: nat := Pow2(shift + CHUNK_SHIFT);
    var p: nat := Pow2(shift);
    DivNonNeg(index, span);
    var hi: nat := index / span;
    MulNonNeg(hi, span);
    MulNonNeg(offset, p);
    hi * span + offset * p
  }

  /** Plain arithmetic behind `MovedIndex`, with `p` standing for
      `Pow2(shift)` and `p * CHUNK_SIZE` for the span of one slot above it:
      the digits above the node's are `h`, the node's digit is `offset` and
      nothing is left below it. */
  lemma MoveDigits(p: nat, h: nat, offset: nat)
    requires p > 0 && offset < CHUNK_SIZE
    ensures (h * (p * CHUNK_SIZE) + offset * p) % p == 0
    ensures (h * (p * CHUNK_SIZE) + offset * p) / p % CHUNK_SIZE == offset
    ensures (h * (p * CHUNK_SIZE) + offset * p) / (p * CHUNK_SIZE) == h
  {
    var d := h * CHUNK_SIZE + offset;
    var m := h * (p * CHUNK_SIZE) + offset * p;
    assert m == d * p;
    DivModUnique(m, p, d, 0);
    DivModUnique(d, CHUNK_SIZE, h, offset);
    MulMonotone(offset, CHUNK_SIZE - 1, p);
    DivModUnique(m, p * CHUNK_SIZE, h, offset * p);
  }

  /** A target digit at or before the index's own digit `c` never moves the
      index forward. */
  lemma MoveBackArith(index: nat, p: nat, h: nat, c: nat, offset: nat)
    requires p > 0 && c < CHUNK_SIZE && offset <= c
    requires index / p == h * CHUNK_SIZE + c
    ensures h * (p * CHUNK_SIZE) + offset * p <= index
  {
    var d := h * CHUNK_SIZE + offset;
    assert h * (p * CHUNK_SIZE) + offset * p == d * p;
    MulMonotone(d, index / p, p);
    assert index == index / p * p + index % p;
  }

  /** The word `xas_move_index` computes, in either direction, whenever it
      fits in a word: aligned to the node's level, with `offset` as the
      node's digit and every higher digit kept. */
  lemma MoveIndexDigits(index: Index, shift: nat, offset: nat)
    requires offset < CHUNK_SIZE
    ensures MovedIndex(index, shift, offset) % Pow2(shift) == 0
    ensures MovedIndex(index, shift, offset) / Pow2(shift) % CHUNK_SIZE == offset
    ensures MovedIndex(index, shift, offset) / Pow2(shift + CHUNK_SHIFT)
         == index / Pow2(shift + CHUNK_SHIFT)
  {
    MovedIndexForm(index, shift, offset);
    MoveDigits(Pow2(shift), index / Pow2(shift + CHUNK_SHIFT), offset);
  }

  lemma MovedIndexForm(index: Index, shift: nat, offset: nat)
    ensures Pow2(shift + CHUNK_SHIFT) == Pow2(shift) * CHUNK_SIZE
    ensures index / Pow2(shift) == index / Pow2(shift + CHUNK_SHIFT) * CHUNK_SIZE + GetOffset(index, shift)
    ensures MovedIndex(index, shift, offset)
         == index / Pow2(shift + CHUNK_SHIFT) * (Pow2(shift) * CHUNK_SIZE) + offset * Pow2(shift)
  {
    ChunkSplit(index, shift);
  }

  lemma MoveIndexBackward(index: Index, shift: nat, offset: nat)
    requires offset <= GetOffset(index, shift)
    ensures MovedIndex(index, shift, offset) <= index
    ensures MovedIndex(index, shift, offset) % Pow2(shift) == 0
    ensures MovedIndex(index, shift, offset) / Pow2(shift) % CHUNK_SIZE == offset
    ensures MovedIndex(index, shift, offset) / Pow2(shift + CHUNK_SHIFT)
         == index / Pow2(shift + CHUNK_SHIFT)
  {
    MoveIndexDigits(index, shift, offset);
    var p, h := Pow2(shift), index / Pow2(shift + CHUNK_SHIFT);
    MovedIndexForm(index, shift, offset);
    MoveBackArith(index, p, h, GetOffset(index, shift), offset);
  }

  /** `xas_move_index`: moves an index to the first index covered by slot
      `offset` of a node at `shift`, backwards to a sibling's canonical slot
      or forwards as a search does. Whenever the moved word fits (always
      when moving backwards), the result keeps every digit above the
      node's, has `offset` as the node's digit and zero below it; moving
      backwards never passes the old index. */
  function MoveIndex(index: Index, shift: nat, offset: nat): (r: Index)
    requires offset < CHUNK_SIZE
    ensures offset <= GetOffset(index, shift) ==> MovedIndex(index, shift, offset) < WORD_LIMIT && r <= index
    ensures MovedIndex(index, shift, offset) < WORD_LIMIT ==>
      && r == MovedIndex(index, shift, offset)
      && r % Pow2(shift) == 0
      && GetOffset(r, shift) == offset
      && r / Pow2(shift + CHUNK_SHIFT) == index / Pow2(shift + CHUNK_SHIFT)
  {
    var m := MovedIndex(index, shift, offset);
    MoveIndexDigits(index, shift, offset);
    if offset <= GetOffset(index, shift) then
      MoveIndexBackward(index, shift, offset);
      m % WORD_LIMIT
    else if m < WORD_LIMIT then
      DivModUnique(m, WORD_LIMIT, 0, m);
      m % WORD_LIMIT
    else
      m % WORD_LIMIT
  }

  /** A pointer or value word may be stored; internal words are represented
      by the explicit variants of `Entry`. */
  predicate ItemOk(w: Word) {
    w != 0 && !IsInternal(w)
  }

  predicate TagsOk(n: Node) {
    && |n.tags| == MAX_TAGS
    && forall t, o :: 0 <= t < MAX_TAGS && o in n.tags[t] ==> o < CHUNK_SIZE
  }

  /** Structural well-formedness: a full chunk of slots, one bitmap per tag
      class, a shift that is a whole number of levels, children exactly one
      level down, and siblings that point back to an earlier non-sibling
      slot of the same node. */
  predicate WFNode(n: Node)
    decreases n
  {
    && n.shift % CHUNK_SHIFT == 0
    && n.shift < BITS_PER_LONG
    && |n.slots| == CHUNK_SIZE
    && TagsOk(n)
    && forall o :: 0 <= o < |n.slots| ==>
         match n.slots[o]
         case Null => true
         case Item(w) => ItemOk(w)
         case Sibling(k) => k < o && !n.slots[k].Sibling?
         case NodeRef(c) => c.shift + CHUNK_SHIFT == n.shift && WFNode(c)
  }

  /** A well-formed entry that is not a sibling: the head of an array, or the
      entry a walk resolves a slot to. */
  predicate WFSlot(e: Entry) {
    match e
    case Null => true
    case Item(w) => ItemOk(w)
    case Sibling(_) => false
    case NodeRef(n) => WFNode(n)
  }

  lemma SlotFacts(n: Node, o: nat)
    requires WFNode(n) && o < CHUNK_SIZE
    ensures !n.slots[o].Sibling? ==> WFSlot(n.slots[o])
    ensures n.slots[o].Sibling? ==>
      n.slots[o].target < o && WFSlot(n.slots[n.slots[o].target])
    ensures n.slots[o].NodeRef? ==> n.slots[o].node.shift + CHUNK_SHIFT == n.shift
  {
    if n.slots[o].Sibling? {
      var k := n.slots[o].target;
      assert k < o;
      assert !n.slots[k].Sibling?;
    }
  }

  lemma ChildWF(n: Node, o: nat)
    requires WFNode(n) && o < CHUNK_SIZE && n.slots[o].NodeRef?
    ensures WFNode(n.slots[o].node)
    ensures TagsOk(n.slots[o].node)
    ensures n.slots[o].node.shift + CHUNK_SHIFT == n.shift
  {
  }

  // ---- per-node tag bitmaps ----

  /** `node_get_tag`: bit `offset` of the class's bitmap. A well-formed
      node's bitmap has one bit per slot, so no bit beyond the last slot
      reads as set. */
  predicate NodeGetTag(n: Node, offset: nat, t: Tag)
    requires |n.tags| == MAX_TAGS
    ensures TagsOk(n) && NodeGetTag(n, offset, t) ==> offset < CHUNK_SIZE
  {
    offset in n.tags[t]
  }

  /** `node_set_tag`: sets one bit and reports whether it was already set. */
  function NodeSetTag(n: Node, offset: nat, t: Tag): (r: (Node, bool))
    requires |n.tags| == MAX_TAGS
    ensures r.1 == NodeGetTag(n, offset, t)
    ensures r.0.shift == n.shift && r.0.slots == n.slots && |r.0.tags| == MAX_TAGS
    ensures NodeGetTag(r.0, offset, t)
    ensures forall t': Tag, o: nat :: (t' != t || o != offset) ==>
      (NodeGetTag(r.0, o, t') <==> NodeGetTag(n, o, t'))
  {
    (n.(tags := n.tags[t := n.tags[t] + {offset}]), offset in n.tags[t])
  }

  /** `node_clear_tag`: clears one bit and reports whether it was set. */
  function NodeClearTag(n: Node, offset: nat, t: Tag): (r: (Node, bool))
    requires |n.tags| == MAX_TAGS
    ensures r.1 == NodeGetTag(n, offset, t)
    ensures r.0.shift == n.shift && r.0.slots == n.slots && |r.0.tags| == MAX_TAGS
    ensures !NodeGetTag(r.0, offset, t)
    ensures forall t': Tag, o: nat :: (t' != t || o != offset) ==>
      (NodeGetTag(r.0, o, t') <==> NodeGetTag(n, o, t'))
  {
    (n.(tags := n.tags[t := n.tags[t] - {offset}]), offset in n.tags[t])
  }

  /** `node_any_tag`: whether any of the node's `CHUNK_SIZE` bits of class
      `t` is set. */
  function NodeAnyTag(n: Node, t: Tag): (r: bool)
    requires TagsOk(n)
    ensures r <==> exists o :: 0 <= o < CHUNK_SIZE && NodeGetTag(n, o, t)
  {
    if n.tags[t] == {} then false
    else
      var o :| o in n.tags[t];
      assert 0 <= o < CHUNK_SIZE && NodeGetTag(n, o, t);
      true
  }

  // ---- paths of offsets from the head node ----

  /** `p` leads from `n` through child nodes only. */
  predicate PathOk(n: Node, p: seq<nat>)
    decreases |p|
  {
    p == [] || (p[0] < |n.slots| && n.slots[p[0]].NodeRef? && PathOk(n.slots[p[0]].node, p[1..]))
  }

  function NodeAt(n: Node, p: seq<nat>): Node
    requires PathOk(n, p)
    decreases |p|
  {
    if p == [] then n else NodeAt(n.slots[p[0]].node, p[1..])
  }

  lemma {:induction false} PathSnoc(n: Node, p: seq<nat>, o: nat)
    requires PathOk(n, p) && o < |NodeAt(n, p).slots| && NodeAt(n, p).slots[o].NodeRef?
    ensures PathOk(n, p + [o])
    ensures NodeAt(n, p + [o]) == NodeAt(n, p).slots[o].node
    decreases |p|
  {
    if p != [] {
      assert (p + [o])[1..] == p[1..] + [o];
      PathSnoc(n.slots[p[0]].node, p[1..], o);
    }
  }

  lemma {:induction false} NodeAtWF(n: Node, p: seq<nat>)
    requires WFNode(n) && PathOk(n, p)
    ensures WFNode(NodeAt(n, p))
    decreases |p|
  {
    if p != [] {
      SlotFacts(n, p[0]);
      NodeAtWF(n.slots[p[0]].node, p[1..]);
    }
  }

  // ---- trees that differ only in some tag classes ----

  /** `e1` and `e2` have the same shape and contents, and the same bits of
      every tag class in `ts`, in every node. */
  predicate AgreeEntry(e1: Entry, e2: Entry, ts: set<Tag>)
    decreases e1
  {
    match e1
    case NodeRef(n1) => e2.NodeRef? && AgreeNode(n1, e2.node, ts)
    case _ => e2 == e1
  }

  predicate AgreeNode(n1: Node, n2: Node, ts: set<Tag>)
    decreases n1
  {
    && n1.shift == n2.shift
    && |n1.slots| == |n2.slots|
    && |n1.tags| == |n2.tags|
    && (forall t :: t in ts && t < |n1.tags| ==> n1.tags[t] == n2.tags[t])
    && forall o :: 0 <= o < |n1.slots| ==> AgreeEntry(n1.slots[o], n2.slots[o], ts)
  }

  lemma {:induction false} AgreeNodeRefl(n: Node, ts: set<Tag>)
    ensures AgreeNode(n, n, ts)
    decreases n
  {
    forall o | 0 <= o < |n.slots|
      ensures AgreeEntry(n.slots[o], n.slots[o], ts)
    {
      if n.slots[o].NodeRef? {
        AgreeNodeRefl(n.slots[o].node, ts);
      }
    }
  }

  /** Paths, and the nodes they reach, are the same in trees of one shape. */
  lemma {:induction false} AgreePath(n1: Node, n2: Node, ts: set<Tag>, p: seq<nat>)
    requires AgreeNode(n1, n2, ts) && PathOk(n1, p)
    ensures PathOk(n2, p)
    ensures AgreeNode(NodeAt(n1, p), NodeAt(n2, p), ts)
    decreases |p|
  {
    if p != [] {
      assert AgreeEntry(n1.slots[p[0]], n2.slots[p[0]], ts);
      AgreePath(n1.slots[p[0]].node, n2.slots[p[0]].node, ts, p[1..]);
    }
  }

  // ---- rebuilding a node ----

  /** A node with the same shift and slots as a well-formed node, and bitmaps
      within range, is well-formed. */
  lemma WFRetag(n: Node, m: Node)
    requires WFNode(n) && m.shift == n.shift && m.slots == n.slots && TagsOk(m)
    ensures WFNode(m)
  {
  }

  /** `n` with the child node in slot `o` replaced by `c`, which stands at the
      same level. */
  function ReplaceChild(n: Node, o: nat, c: Node): (m: Node)
    requires WFNode(n) && o < CHUNK_SIZE && n.slots[o].NodeRef?
    requires WFNode(c) && c.shift == n.slots[o].node.shift
    ensures WFNode(m) && m.shift == n.shift && m.tags == n.tags
    ensures m.slots[o] == NodeRef(c)
    ensures forall o' :: 0 <= o' < CHUNK_SIZE && o' != o ==> m.slots[o'] == n.slots[o']
    ensures c == n.slots[o].node ==> m == n
  {
    var m := n.(slots := n.slots[o := NodeRef(c)]);
    assert forall o' :: 0 <= o' < CHUNK_SIZE ==> m.slots[o'].Sibling? == n.slots[o'].Sibling?;
    m
  }

  lemma AgreeEntryRefl(e: Entry, ts: set<Tag>)
    ensures AgreeEntry(e, e, ts)
  {
    if e.NodeRef? {
      AgreeNodeRefl(e.node, ts);
    }
  }

  /** A node that keeps the shape, the bits of the classes in `ts` and every
      slot but `o`, and whose slot `o` agrees, agrees with the original. */
  lemma AgreeRebuild(n: Node, m: Node, o: nat, ts: set<Tag>)
    requires n.shift == m.shift && |n.slots| == |m.slots| && |n.tags| == |m.tags|
    requires forall t :: t in ts && t < |n.tags| ==> n.tags[t] == m.tags[t]
    requires forall o' :: 0 <= o' < |n.slots| && o' != o ==> n.slots[o'] == m.slots[o']
    requires o < |n.slots| ==> AgreeEntry(n.slots[o], m.slots[o], ts)
    ensures AgreeNode(n, m, ts)
  {
    forall o' | 0 <= o' < |n.slots|
      ensures AgreeEntry(n.slots[o'], m.slots[o'], ts)
    {
      if o' != o {
        AgreeEntryRefl(n.slots[o'], ts);
      }
    }
  }

  // ---- the upward tag invariant ----

  /** In every node, every slot keeps `SlotTagInv`. */
  predicate TagInv(n: Node)
    requires WFNode(n)
    decreases n, 1
  {
    forall o :: 0 <= o < CHUNK_SIZE ==> SlotTagInv(n, o)
  }

  /** The tag bits of one slot. For a child node, the bit of each class is set
      exactly when the child has some bit of that class set, and the child
      keeps the invariant; a NULL or sibling slot has no bit set. */
  predicate SlotTagInv(n: Node, o: nat)
    requires WFNode(n) && o < CHUNK_SIZE
    decreases n, 0
  {
    match n.slots[o]
    case NodeRef(c) =>
      ChildWF(n, o);
      && (forall t: Tag :: o in n.tags[t] <==> c.tags[t] != {})
      && TagInv(c)
    case Item(_) => true
    case _ => forall t: Tag :: o !in n.tags[t]
  }

  /** The invariant survives a change that keeps every other slot's entry and
      bits, provided the changed slot keeps its own part. */
  lemma TagInvUpdate(n: Node, m: Node, o: nat)
    requires WFNode(n) && TagInv(n) && WFNode(m) && o < CHUNK_SIZE
    requires SlotTagInv(m, o)
    requires forall o' :: 0 <= o' < CHUNK_SIZE && o' != o ==> m.slots[o'] == n.slots[o']
    requires forall o', t: Tag :: o' != o ==> (o' in m.tags[t] <==> o' in n.tags[t])
    ensures TagInv(m)
  {
    forall o' | 0 <= o' < CHUNK_SIZE
      ensures SlotTagInv(m, o')
    {
      if o' != o {
        assert SlotTagInv(n, o');
      }
    }
  }
}
