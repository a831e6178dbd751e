/** Tags: a few bits per entry, kept in a bitmap per tag class in every node
    and summarised upward, so that a node's bit says whether anything below
    that slot carries the tag, and the array flag says whether anything in
    the array does. */
module XaTag {
  import opened Bits
  import opened XaEntry
  import opened XaNode
  import opened XaWalk

  function OtherTags(t: Tag): (ts: set<Tag>)
    ensures forall u: Tag :: u in ts <==> u != t
  {
    {0, 1, 2} - {t}
  }

  /** Bit `t` of slot `offset` in the node at `path`. */
  predicate BitAt(n: Node, path: seq<nat>, offset: nat, t: Tag)
    requires WFNode(n) && PathOk(n, path)
  {
    NodeAtWF(n, path);
    NodeGetTag(NodeAt(n, path), offset, t)
  }

  /** `xa_tag_set` */
  function FlagSet(xa: XArray, t: Tag): (r: XArray)
    ensures Tagged(r, t)
    ensures r.head == xa.head && r.flags.other == xa.flags.other
    ensures forall u: Tag :: u != t ==> (Tagged(r, u) <==> Tagged(xa, u))
    ensures Tagged(xa, t) ==> r == xa
  {
    if !Tagged(xa, t) then xa.(flags := xa.flags.(tagged := xa.flags.tagged + {t})) else xa
  }

  /** `xa_tag_clear` */
  function FlagClear(xa: XArray, t: Tag): (r: XArray)
    ensures !Tagged(r, t)
    ensures r.head == xa.head && r.flags.other == xa.flags.other
    ensures forall u: Tag :: u != t ==> (Tagged(r, u) <==> Tagged(xa, u))
    ensures !Tagged(xa, t) ==> r == xa
  {
    if Tagged(xa, t) then xa.(flags := xa.flags.(tagged := xa.flags.tagged - {t})) else xa
  }

  /** `xas_get_tag`: false in a state that has not been walked or is in
      error, the array flag at the head, and the bit of the current slot in a
      node. */
  predicate XasGetTag(xa: XArray, xas: XaState, t: Tag)
    requires WF(xa) && CursorIn(xa, xas)
    ensures XasGetTag(xa, xas, t) ==> IsValid(xas)
    ensures xas.node.Top? ==> (XasGetTag(xa, xas, t) <==> Tagged(xa, t))
  {
    match xas.node
    case Top => Tagged(xa, t)
    case At(p) => BitAt(xa.head.node, p, xas.offset, t)
    case _ => false
  }

  /** Every bit of class `t` on the way from `n` to slot `offset` of the node
      at `path` is clear: the slot's own bit and the bit of each node in its
      parent. */
  predicate ClearAlong(n: Node, path: seq<nat>, offset: nat, t: Tag)
    requires WFNode(n) && PathOk(n, path)
    decreases |path|
  {
    if path == [] then !NodeGetTag(n, offset, t)
    else
      ChildWF(n, path[0]);
      && !NodeGetTag(n, path[0], t)
      && ClearAlong(n.slots[path[0]].node, path[1..], offset, t)
  }

  /** The loop of `xas_set_tag` below the head, rebuilding the immutable tree
      bottom-up: sets bit `t` of slot `offset` in the node at `path`, then the
      bit of each node in its parent, stopping at the first bit that was
      already set. The flag says whether the loop ran past the head node,
      which happens exactly when every bit on the way was clear. */
  function SetTagPath(n: Node, path: seq<nat>, offset: nat, t: Tag): (r: (Node, bool))
    requires WFNode(n) && PathOk(n, path) && offset < CHUNK_SIZE
    ensures WFNode(r.0) && r.0.shift == n.shift && PathOk(r.0, path)
    ensures BitAt(r.0, path, offset, t)
    ensures r.1 == ClearAlong(n, path, offset, t)
    ensures BitAt(n, path, offset, t) ==> r == (n, false)
    ensures forall u: Tag :: u != t ==> r.0.tags[u] == n.tags[u]
    decreases |path|
  {
    if path == [] then
      var (m, was) := NodeSetTag(n, offset, t);
      WFRetag(n, m);
      assert was ==> n.tags[t] + {offset} == n.tags[t];
      assert was ==> m.tags == n.tags;
      (m, !was)
    else
      ChildWF(n, path[0]);
      var (c2, cont) := SetTagPath(n.slots[path[0]].node, path[1..], offset, t);
      var m := ReplaceChild(n, path[0], c2);
      if !cont then (m, false)
      else
        var (m2, was) := NodeSetTag(m, path[0], t);
        WFRetag(m, m2);
        (m2, !was)
  }

  /** The loop of `xas_clear_tag` below the head: clears bit `t` of slot
      `offset` in the node at `path`; while the bit was set and the node just
      changed has no bit of the class left, clears the node's bit in its
      parent. The flag says whether the loop ran past the head node. */
  function ClearTagPath(n: Node, path: seq<nat>, offset: nat, t: Tag): (r: (Node, bool))
    requires WFNode(n) && PathOk(n, path) && offset < CHUNK_SIZE
    ensures WFNode(r.0) && r.0.shift == n.shift && PathOk(r.0, path)
    ensures !BitAt(r.0, path, offset, t)
    ensures r.1 ==> r.0.tags[t] == {}
    ensures !BitAt(n, path, offset, t) ==> r == (n, false)
    ensures forall u: Tag :: u != t ==> r.0.tags[u] == n.tags[u]
    decreases |path|
  {
    if path == [] then
      var (m, was) := NodeClearTag(n, offset, t);
      WFRetag(n, m);
      assert !was ==> n.tags[t] - {offset} == n.tags[t];
      assert !was ==> m.tags == n.tags;
      (m, was && !NodeAnyTag(m, t))
    else
      ChildWF(n, path[0]);
      var (c2, cont) := ClearTagPath(n.slots[path[0]].node, path[1..], offset, t);
      var m := ReplaceChild(n, path[0], c2);
      if !cont then (m, false)
      else
        var (m2, was) := NodeClearTag(m, path[0], t);
        WFRetag(m, m2);
        (m2, was && !NodeAnyTag(m2, t))
  }

  /** `xas_set_tag`: sets the tag on the entry where the state stands and
      on its ancestors, and the array flag if the walk up reaches the head.
      Does nothing in a state that has not been walked or is in error, or
      when the entry's bit is already set. */
  function XasSetTag(xa: XArray, xas: XaState, t: Tag): (r: XArray)
    requires WF(xa) && CursorIn(xa, xas)
    ensures WF(r) && CursorIn(r, xas)
    ensures !IsValid(xas) ==> r == xa
    ensures IsValid(xas) ==> XasGetTag(r, xas, t)
    ensures IsValid(xas) && XasGetTag(xa, xas, t) ==> r == xa
    ensures r.flags.other == xa.flags.other
    ensures forall u: Tag :: u != t ==> (Tagged(r, u) <==> Tagged(xa, u))
  {
    match xas.node
    case Top => FlagSet(xa, t)
    case At(p) =>
      var (n2, cont) := SetTagPath(xa.head.node, p, xas.offset, t);
      var xa2 := xa.(head := NodeRef(n2));
      if cont then FlagSet(xa2, t) else xa2
    case _ => xa
  }

  /** `xas_clear_tag`: clears the tag on the entry where the state stands
      and on each ancestor left with no entry carrying it, and the array flag
      if that reaches the head. Does nothing in a state that has not been
      walked or is in error, or when the entry's bit is already clear. */
  function XasClearTag(xa: XArray, xas: XaState, t: Tag): (r: XArray)
    requires WF(xa) && CursorIn(xa, xas)
    ensures WF(r) && CursorIn(r, xas)
    ensures !IsValid(xas) ==> r == xa
    ensures !XasGetTag(r, xas, t)
    ensures !XasGetTag(xa, xas, t) ==> r == xa
    ensures r.flags.other == xa.flags.other
    ensures forall u: Tag :: u != t ==> (Tagged(r, u) <==> Tagged(xa, u))
  {
    match xas.node
    case Top => FlagClear(xa, t)
    case At(p) =>
      var (n2, cont) := ClearTagPath(xa.head.node, p, xas.offset, t);
      var xa2 := xa.(head := NodeRef(n2));
      if cont then FlagClear(xa2, t) else xa2
    case _ => xa
  }

  // ---- the array-level operations ----

  /** The entry in slot `offset` of the node at `path`. */
  function EntryAt(n: Node, path: seq<nat>, offset: nat): Entry
    requires WFNode(n) && PathOk(n, path) && offset < CHUNK_SIZE
  {
    NodeAtWF(n, path);
    NodeAt(n, path).slots[offset]
  }

  /** The tag invariant of a whole array: every node keeps `TagInv`, each
      array flag says whether the head node has any bit of its class, and an
      empty array has no flag set. */
  predicate Inv(xa: XArray) {
    && WF(xa)
    && match xa.head
       case NodeRef(n) => TagInv(n) && forall t: Tag :: Tagged(xa, t) <==> n.tags[t] != {}
       case Null => xa.flags.tagged == {}
       case _ => true
  }

  /** Setting the bit of a stored entry keeps the tag invariant: afterwards
      the rebuilt node has a bit of the class set, and when the loop stopped
      early the node had one set already. */
  lemma {:induction false} SetTagPathInv(n: Node, path: seq<nat>, offset: nat, t: Tag)
    requires WFNode(n) && TagInv(n) && PathOk(n, path) && offset < CHUNK_SIZE
    requires EntryAt(n, path, offset).Item?
    ensures TagInv(SetTagPath(n, path, offset, t).0)
    ensures SetTagPath(n, path, offset, t).0.tags[t] != {}
    ensures !SetTagPath(n, path, offset, t).1 ==> n.tags[t] != {}
    decreases |path|
  {
    var (r0, r1) := SetTagPath(n, path, offset, t);
    if path == [] {
      assert SlotTagInv(r0, offset);
      TagInvUpdate(n, r0, offset);
    } else {
      var o := path[0];
      ChildWF(n, o);
      var c := n.slots[o].node;
      assert SlotTagInv(n, o);
      SetTagPathInv(c, path[1..], offset, t);
      var (c2, cont) := SetTagPath(c, path[1..], offset, t);
      assert SlotTagInv(r0, o);
      TagInvUpdate(n, r0, o);
    }
  }

  /** Clearing the bit of an entry that is not a node keeps the tag
      invariant. When the loop ran past the head node, that node had a bit
      set before and has none now; otherwise whether it has any bit set is
      unchanged. */
  lemma {:induction false} ClearTagPathInv(n: Node, path: seq<nat>, offset: nat, t: Tag)
    requires WFNode(n) && TagInv(n) && PathOk(n, path) && offset < CHUNK_SIZE
    requires !EntryAt(n, path, offset).NodeRef?
    ensures TagInv(ClearTagPath(n, path, offset, t).0)
    ensures ClearTagPath(n, path, offset, t).1 ==> n.tags[t] != {}
    ensures !ClearTagPath(n, path, offset, t).1 ==>
      (ClearTagPath(n, path, offset, t).0.tags[t] == {} <==> n.tags[t] == {})
    decreases |path|
  {
    var (r0, r1) := ClearTagPath(n, path, offset, t);
    if path == [] {
      assert SlotTagInv(n, offset);
      assert SlotTagInv(r0, offset);
      TagInvUpdate(n, r0, offset);
    } else {
      var o := path[0];
      ChildWF(n, o);
      var c := n.slots[o].node;
      assert SlotTagInv(n, o);
      ClearTagPathInv(c, path[1..], offset, t);
      var (c2, cont) := ClearTagPath(c, path[1..], offset, t);
      assert SlotTagInv(r0, o);
      TagInvUpdate(n, r0, o);
    }
  }

  lemma XasSetTagInv(xa: XArray, xas: XaState, t: Tag)
    requires WF(xa) && CursorIn(xa, xas) && IsValid(xas) && Reload(xa, xas).Item?
    ensures Inv(xa) ==> Inv(XasSetTag(xa, xas, t))
  {
    if Inv(xa) && xas.node.At? {
      SetTagPathInv(xa.head.node, xas.node.path, xas.offset, t);
    }
  }

  lemma XasClearTagInv(xa: XArray, xas: XaState, t: Tag)
    requires WF(xa) && CursorIn(xa, xas) && IsValid(xas) && !Reload(xa, xas).NodeRef?
    ensures Inv(xa) ==> Inv(XasClearTag(xa, xas, t))
  {
    if Inv(xa) && xas.node.At? {
      ClearTagPathInv(xa.head.node, xas.node.path, xas.offset, t);
    }
  }

  /** The entry `xas_load` found from a fresh state, when it is not NULL, is
      a stored entry at a valid state. */
  lemma LoadedItem(xa: XArray, index: Index)
    requires WF(xa) && XaLoad(xa, index) != Null
    ensures IsValid(LoadState(xa, index)) && CursorIn(xa, LoadState(xa, index))
    ensures Reload(xa, LoadState(xa, index)) == XaLoad(xa, index)
    ensures XaLoad(xa, index).Item?
  {
    LoadConsistent(xa, index);
  }

  /** `__xa_set_tag`: sets the tag on the entry at `index` if there is one.
      Setting a tag on NULL does nothing, and the tag invariant is kept. */
  function XaSetTag(xa: XArray, index: Index, t: Tag): (r: XArray)
    requires WF(xa)
    ensures WF(r)
    ensures XaLoad(xa, index) == Null ==> r == xa
    ensures Inv(xa) ==> Inv(r)
  {
    if XaLoad(xa, index) != Null then
      LoadedItem(xa, index);
      XasSetTagInv(xa, LoadState(xa, index), t);
      XasSetTag(xa, LoadState(xa, index), t)
    else xa
  }

  /** `__xa_clear_tag`: clears the tag on the entry at `index` if there is
      one, keeping the tag invariant. */
  function XaClearTag(xa: XArray, index: Index, t: Tag): (r: XArray)
    requires WF(xa)
    ensures WF(r)
    ensures XaLoad(xa, index) == Null ==> r == xa
    ensures Inv(xa) ==> Inv(r)
  {
    if XaLoad(xa, index) != Null then
      LoadedItem(xa, index);
      XasClearTagInv(xa, LoadState(xa, index), t);
      XasClearTag(xa, LoadState(xa, index), t)
    else xa
  }

  /** The loop of `xa_get_tag`: while the tag is set where the state stands,
      answer true at an entry that is not a node, or descend into the node. */
  predicate GetTagWalk(xa: XArray, xas: XaState, e: Entry, t: Tag)
    requires WF(xa) && Consistent(xa, xas, e)
    requires e.NodeRef? ==> WFNode(e.node)
    ensures GetTagWalk(xa, xas, e, t) ==> XasGetTag(xa, xas, t)
    decreases e
  {
    if !XasGetTag(xa, xas, t) then false
    else if !e.NodeRef? then true
    else
      DescendConsistent(xa, xas, e.node);
      var (x2, e2) := Descend(xas, e.node);
      GetTagWalk(xa, x2, e2, t)
  }

  /** `xa_get_tag` */
  predicate XaGetTag(xa: XArray, index: Index, t: Tag)
    requires WF(xa)
    ensures XaGetTag(xa, index, t) ==> Tagged(xa, t)
    ensures !InRange(xa, index) ==> !XaGetTag(xa, index, t)
  {
    var (xas, e) := Start(xa, Fresh(index));
    GetTagWalk(xa, xas, e, t)
  }

  // ---- reading tags back ----

  lemma {:induction false} TagInvAt(n: Node, path: seq<nat>)
    requires WFNode(n) && TagInv(n) && PathOk(n, path)
    ensures WFNode(NodeAt(n, path)) && TagInv(NodeAt(n, path))
    decreases |path|
  {
    NodeAtWF(n, path);
    if path != [] {
      assert SlotTagInv(n, path[0]);
      ChildWF(n, path[0]);
      TagInvAt(n.slots[path[0]].node, path[1..]);
    }
  }

  /** Under the invariant a bit set one level down implies the bit, or the
      array flag, at the place the walk came from. */
  lemma DescendUp(xa: XArray, xas: XaState, n: Node, t: Tag)
    requires Inv(xa) && Consistent(xa, xas, NodeRef(n)) && WFNode(n)
    ensures IsValid(xas) && Consistent(xa, Descend(xas, n).0, Descend(xas, n).1)
    ensures XasGetTag(xa, Descend(xas, n).0, t) ==> XasGetTag(xa, xas, t)
  {
    DescendConsistent(xa, xas, n);
    var x2 := Descend(xas, n).0;
    if XasGetTag(xa, x2, t) {
      assert x2.offset in n.tags[t];
      if xas.node.At? {
        TagInvAt(xa.head.node, xas.node.path);
        assert SlotTagInv(NodeAt(xa.head.node, xas.node.path), xas.offset);
      }
    }
  }

  lemma {:induction false} GetTagWalkIsLeafBit(xa: XArray, xas: XaState, e: Entry, t: Tag)
    requires Inv(xa) && Consistent(xa, xas, e) && xas.shift == 0
    requires e.NodeRef? ==> WFNode(e.node)
    ensures Consistent(xa, Walk(xas, e).0, Walk(xas, e).1)
    ensures GetTagWalk(xa, xas, e, t) == XasGetTag(xa, Walk(xas, e).0, t)
    ensures XasGetTag(xa, Walk(xas, e).0, t) ==> XasGetTag(xa, xas, t)
    decreases e
  {
    WalkConsistent(xa, xas, e);
    if e.NodeRef? {
      DescendUp(xa, xas, e.node, t);
      var (x2, e2) := Descend(xas, e.node);
      GetTagWalkIsLeafBit(xa, x2, e2, t);
    }
  }

  /** Bit `t` is set, in its parent, for every node on `path` below `n`. */
  predicate BitsOn(n: Node, path: seq<nat>, t: Tag)
    requires WFNode(n) && PathOk(n, path)
    decreases |path|
  {
    if path == [] then true
    else
      ChildWF(n, path[0]);
      NodeGetTag(n, path[0], t) && BitsOn(n.slots[path[0]].node, path[1..], t)
  }

  lemma {:induction false} BitsOnSnoc(n: Node, path: seq<nat>, o: nat, t: Tag)
    requires WFNode(n) && PathOk(n, path) && o < CHUNK_SIZE && EntryAt(n, path, o).NodeRef?
    ensures PathOk(n, path + [o])
    ensures BitsOn(n, path + [o], t) <==> BitsOn(n, path, t) && BitAt(n, path, o, t)
    decreases |path|
  {
    NodeAtWF(n, path);
    PathSnoc(n, path, o);
    if path != [] {
      ChildWF(n, path[0]);
      assert (path + [o])[1..] == path[1..] + [o];
      BitsOnSnoc(n.slots[path[0]].node, path[1..], o, t);
    }
  }

  /** The array flag and every bit on the way down to the node a state stands
      in are set. */
  predicate TaggedAbove(xa: XArray, xas: XaState, t: Tag)
    requires WF(xa)
  {
    && CursorIn(xa, xas)
    && match xas.node
       case At(p) => Tagged(xa, t) && BitsOn(xa.head.node, p, t)
       case _ => true
  }

  /** The array flag and every bit from the head down to the slot a state
      stands at are set. */
  predicate TaggedDown(xa: XArray, xas: XaState, t: Tag)
    requires WF(xa)
  {
    TaggedAbove(xa, xas, t) && XasGetTag(xa, xas, t)
  }

  lemma {:induction false} GetTagWalkSpec(xa: XArray, xas: XaState, e: Entry, t: Tag)
    requires WF(xa) && Consistent(xa, xas, e) && xas.shift == 0
    requires e.NodeRef? ==> WFNode(e.node)
    ensures TaggedDown(xa, Walk(xas, e).0, t) ==> TaggedDown(xa, xas, t)
    ensures TaggedAbove(xa, xas, t) ==>
      (GetTagWalk(xa, xas, e, t) <==> TaggedDown(xa, Walk(xas, e).0, t))
    decreases e
  {
    WalkConsistent(xa, xas, e);
    if e.NodeRef? {
      DescendConsistent(xa, xas, e.node);
      var (x2, e2) := Descend(xas, e.node);
      GetTagWalkSpec(xa, x2, e2, t);
      if xas.node.At? {
        CursorNodeWF(xa, xas);
        BitsOnSnoc(xa.head.node, xas.node.path, xas.offset, t);
      }
      assert TaggedAbove(xa, x2, t) == TaggedDown(xa, xas, t);
    }
  }

  /** `xa_get_tag` is true exactly when the array flag and every bit on the
      way down to the slot of the entry `xa_load` reads are set. */
  lemma XaGetTagSpec(xa: XArray, index: Index, t: Tag)
    requires WF(xa)
    ensures XaGetTag(xa, index, t) == TaggedDown(xa, LoadState(xa, index), t)
  {
    var (x1, e1) := Start(xa, Fresh(index));
    GetTagWalkSpec(xa, x1, e1, t);
  }

  /** The tag bit of the slot `xa_load` reads for `index`: the array flag
      for an entry stored in the head, false out of range. */
  predicate LeafTag(xa: XArray, index: Index, t: Tag)
    requires WF(xa)
  {
    LoadConsistent(xa, index);
    XasGetTag(xa, LoadState(xa, index), t)
  }

  /** Under the invariant, `xa_get_tag`, which checks the bit at every level
      on the way down, answers with the bit of the entry's own slot. */
  lemma XaGetTagIsLeafBit(xa: XArray, index: Index, t: Tag)
    requires Inv(xa)
    ensures XaGetTag(xa, index, t) == LeafTag(xa, index, t)
  {
    var (x1, e1) := Start(xa, Fresh(index));
    GetTagWalkIsLeafBit(xa, x1, e1, t);
  }

  /** NULL entries have no tags set. */
  lemma NullHasNoTag(xa: XArray, index: Index, t: Tag)
    requires Inv(xa) && XaLoad(xa, index) == Null
    ensures !XaGetTag(xa, index, t)
  {
    XaGetTagIsLeafBit(xa, index, t);
    LoadConsistent(xa, index);
    var x := LoadState(xa, index);
    if x.node.At? {
      TagInvAt(xa.head.node, x.node.path);
      assert SlotTagInv(NodeAt(xa.head.node, x.node.path), x.offset);
    }
  }

  // ---- what a tag operation leaves alone ----

  /** `m` has the same entries and the same bits of class `t` as `n`
      everywhere except on the way down `path` to slot `offset`. */
  predicate SameOffPath(n: Node, m: Node, path: seq<nat>, offset: nat, t: Tag)
    requires WFNode(n) && WFNode(m)
    decreases |path|
  {
    var here := if path == [] then offset else path[0];
    && (forall o :: 0 <= o < CHUNK_SIZE && o != here ==> (o in n.tags[t] <==> o in m.tags[t]))
    && (forall o :: 0 <= o < CHUNK_SIZE && (path == [] || o != path[0]) ==> n.slots[o] == m.slots[o])
    && (path != [] ==>
          && path[0] < CHUNK_SIZE
          && n.slots[path[0]].NodeRef? && m.slots[path[0]].NodeRef?
          && SameOffPathBelow(n, m, path, offset, t))
  }

  predicate SameOffPathBelow(n: Node, m: Node, path: seq<nat>, offset: nat, t: Tag)
    requires WFNode(n) && WFNode(m) && path != [] && path[0] < CHUNK_SIZE
    requires n.slots[path[0]].NodeRef? && m.slots[path[0]].NodeRef?
    decreases |path|, 0
  {
    ChildWF(n, path[0]);
    ChildWF(m, path[0]);
    SameOffPath(n.slots[path[0]].node, m.slots[path[0]].node, path[1..], offset, t)
  }

  lemma {:induction false} SetTagPathFrame(n: Node, path: seq<nat>, offset: nat, t: Tag)
    requires WFNode(n) && PathOk(n, path) && offset < CHUNK_SIZE
    ensures AgreeNode(n, SetTagPath(n, path, offset, t).0, OtherTags(t))
    ensures SameOffPath(n, SetTagPath(n, path, offset, t).0, path, offset, t)
    decreases |path|
  {
    var r0 := SetTagPath(n, path, offset, t).0;
    if path == [] {
      AgreeEntryRefl(n.slots[offset], OtherTags(t));
      AgreeRebuild(n, r0, offset, OtherTags(t));
    } else {
      var o := path[0];
      ChildWF(n, o);
      SetTagPathFrame(n.slots[o].node, path[1..], offset, t);
      AgreeRebuild(n, r0, o, OtherTags(t));
    }
  }

  lemma {:induction false} ClearTagPathFrame(n: Node, path: seq<nat>, offset: nat, t: Tag)
    requires WFNode(n) && PathOk(n, path) && offset < CHUNK_SIZE
    ensures AgreeNode(n, ClearTagPath(n, path, offset, t).0, OtherTags(t))
    ensures SameOffPath(n, ClearTagPath(n, path, offset, t).0, path, offset, t)
    decreases |path|
  {
    var r0 := ClearTagPath(n, path, offset, t).0;
    if path == [] {
      AgreeEntryRefl(n.slots[offset], OtherTags(t));
      AgreeRebuild(n, r0, offset, OtherTags(t));
    } else {
      var o := path[0];
      ChildWF(n, o);
      ClearTagPathFrame(n.slots[o].node, path[1..], offset, t);
      AgreeRebuild(n, r0, o, OtherTags(t));
    }
  }

  /** A bit of class `t` for a slot that does not hold a node, anywhere but
      at the slot a path operation targeted, is the same before and after. */
  lemma {:induction false} OffPathBit(n: Node, m: Node, path: seq<nat>, offset: nat,
                                      q: seq<nat>, o: nat, t: Tag)
    requires WFNode(n) && WFNode(m) && SameOffPath(n, m, path, offset, t)
    requires PathOk(n, q) && o < CHUNK_SIZE && !EntryAt(n, q, o).NodeRef?
    requires q != path || o != offset
    ensures PathOk(m, q)
    ensures BitAt(n, q, o, t) == BitAt(m, q, o, t)
    decreases |q|
  {
    if q != [] {
      ChildWF(n, q[0]);
      if path != [] && q[0] == path[0] {
        assert SameOffPathBelow(n, m, path, offset, t);
        ChildWF(m, q[0]);
        assert q == [q[0]] + q[1..] && path == [path[0]] + path[1..];
        OffPathBit(n.slots[q[0]].node, m.slots[q[0]].node, path[1..], offset, q[1..], o, t);
      } else {
        assert m.slots[q[0]] == n.slots[q[0]];
      }
    }
  }

  lemma XasSetTagFrame(xa: XArray, xas: XaState, t: Tag)
    requires WF(xa) && CursorIn(xa, xas)
    ensures AgreeEntry(xa.head, XasSetTag(xa, xas, t).head, OtherTags(t))
    ensures xas.node.At? ==>
      && XasSetTag(xa, xas, t).head.NodeRef?
      && SameOffPath(xa.head.node, XasSetTag(xa, xas, t).head.node, xas.node.path, xas.offset, t)
  {
    if xas.node.At? {
      SetTagPathFrame(xa.head.node, xas.node.path, xas.offset, t);
    } else {
      AgreeEntryRefl(xa.head, OtherTags(t));
    }
  }

  lemma XasClearTagFrame(xa: XArray, xas: XaState, t: Tag)
    requires WF(xa) && CursorIn(xa, xas)
    ensures AgreeEntry(xa.head, XasClearTag(xa, xas, t).head, OtherTags(t))
    ensures xas.node.At? ==>
      && XasClearTag(xa, xas, t).head.NodeRef?
      && SameOffPath(xa.head.node, XasClearTag(xa, xas, t).head.node, xas.node.path, xas.offset, t)
  {
    if xas.node.At? {
      ClearTagPathFrame(xa.head.node, xas.node.path, xas.offset, t);
    } else {
      AgreeEntryRefl(xa.head, OtherTags(t));
    }
  }

  /** Both arrays answer `xas_get_tag` for a class in `ts` alike at a state
      when their trees agree on `ts` and their flags on `u`. */
  lemma GetTagAgree(xa1: XArray, xa2: XArray, xas: XaState, ts: set<Tag>, u: Tag)
    requires WF(xa1) && WF(xa2) && CursorIn(xa1, xas)
    requires AgreeEntry(xa1.head, xa2.head, ts) && u in ts
    requires Tagged(xa1, u) <==> Tagged(xa2, u)
    ensures CursorIn(xa2, xas)
    ensures XasGetTag(xa1, xas, u) == XasGetTag(xa2, xas, u)
  {
    if xas.node.At? {
      var p := xas.node.path;
      AgreePath(xa1.head.node, xa2.head.node, ts, p);
      NodeAtWF(xa1.head.node, p);
      assert NodeAt(xa1.head.node, p).tags[u] == NodeAt(xa2.head.node, p).tags[u];
    }
  }

  // ---- the array-level properties ----

  /** A tag set on a stored entry reads back as set. */
  lemma SetThenGet(xa: XArray, index: Index, t: Tag)
    requires Inv(xa) && XaLoad(xa, index) != Null
    ensures XaGetTag(XaSetTag(xa, index, t), index, t)
  {
    var r := XaSetTag(xa, index, t);
    LoadedItem(xa, index);
    XasSetTagFrame(xa, LoadState(xa, index), t);
    LoadAgree(xa, r, index, OtherTags(t));
    XaGetTagIsLeafBit(r, index, t);
  }

  /** A cleared tag reads back as clear, whatever was stored at the index. */
  lemma ClearThenGet(xa: XArray, index: Index, t: Tag)
    requires Inv(xa)
    ensures !XaGetTag(XaClearTag(xa, index, t), index, t)
  {
    var r := XaClearTag(xa, index, t);
    if XaLoad(xa, index) == Null {
      NullHasNoTag(xa, index, t);
    } else {
      LoadedItem(xa, index);
      XasClearTagFrame(xa, LoadState(xa, index), t);
      LoadAgree(xa, r, index, OtherTags(t));
      XaGetTagIsLeafBit(r, index, t);
    }
  }

  /** Setting a tag on a NULL entry does not succeed. */
  lemma SetOnNullFails(xa: XArray, index: Index, t: Tag)
    requires Inv(xa) && XaLoad(xa, index) == Null
    ensures !XaGetTag(XaSetTag(xa, index, t), index, t)
  {
    NullHasNoTag(xa, index, t);
  }

  /** Tag operations never change what is stored: every index loads the same
      entry afterwards. */
  lemma TagOpsKeepEntries(xa: XArray, index: Index, other: Index, t: Tag)
    requires WF(xa)
    ensures XaLoad(XaSetTag(xa, index, t), other) == XaLoad(xa, other)
    ensures XaLoad(XaClearTag(xa, index, t), other) == XaLoad(xa, other)
  {
    if XaLoad(xa, index) != Null {
      LoadedItem(xa, index);
      XasSetTagFrame(xa, LoadState(xa, index), t);
      XasClearTagFrame(xa, LoadState(xa, index), t);
      LoadAgree(xa, XaSetTag(xa, index, t), other, OtherTags(t));
      LoadAgree(xa, XaClearTag(xa, index, t), other, OtherTags(t));
    }
  }

  /** Setting or clearing one tag class leaves every other class, at every
      index, as it was. */
  lemma OtherClassesUnchanged(xa: XArray, index: Index, other: Index, t: Tag, u: Tag)
    requires Inv(xa) && u != t
    ensures XaGetTag(XaSetTag(xa, index, t), other, u) == XaGetTag(xa, other, u)
    ensures XaGetTag(XaClearTag(xa, index, t), other, u) == XaGetTag(xa, other, u)
  {
    var r1, r2 := XaSetTag(xa, index, t), XaClearTag(xa, index, t);
    XaGetTagIsLeafBit(xa, other, u);
    XaGetTagIsLeafBit(r1, other, u);
    XaGetTagIsLeafBit(r2, other, u);
    if XaLoad(xa, index) != Null {
      LoadedItem(xa, index);
      var x := LoadState(xa, index);
      XasSetTagFrame(xa, x, t);
      XasClearTagFrame(xa, x, t);
      LoadAgree(xa, r1, other, OtherTags(t));
      LoadAgree(xa, r2, other, OtherTags(t));
      LoadConsistent(xa, other);
      GetTagAgree(xa, r1, LoadState(xa, other), OtherTags(t), u);
      GetTagAgree(xa, r2, LoadState(xa, other), OtherTags(t), u);
    }
  }

  /** Setting or clearing a tag on one entry leaves the same tag of every
      entry stored at a different slot as it was. */
  lemma OtherEntriesUnchanged(xa: XArray, index: Index, other: Index, t: Tag)
    requires Inv(xa)
    requires LoadState(xa, other).node != LoadState(xa, index).node
          || LoadState(xa, other).offset != LoadState(xa, index).offset
    ensures XaGetTag(XaSetTag(xa, index, t), other, t) == XaGetTag(xa, other, t)
    ensures XaGetTag(XaClearTag(xa, index, t), other, t) == XaGetTag(xa, other, t)
  {
    var r1, r2 := XaSetTag(xa, index, t), XaClearTag(xa, index, t);
    XaGetTagIsLeafBit(xa, other, t);
    XaGetTagIsLeafBit(r1, other, t);
    XaGetTagIsLeafBit(r2, other, t);
    if XaLoad(xa, index) != Null {
      LoadedItem(xa, index);
      LoadConsistent(xa, index);
      LoadConsistent(xa, other);
      var x, y := LoadState(xa, index), LoadState(xa, other);
      XasSetTagFrame(xa, x, t);
      XasClearTagFrame(xa, x, t);
      LoadAgree(xa, r1, other, OtherTags(t));
      LoadAgree(xa, r2, other, OtherTags(t));
      if y.node.At? {
        var q := y.node.path;
        var p := x.node.path;
        OffPathBit(xa.head.node, r1.head.node, p, x.offset, q, y.offset, t);
        OffPathBit(xa.head.node, r2.head.node, p, x.offset, q, y.offset, t);
      }
    }
  }
}
