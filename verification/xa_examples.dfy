/** Small arrays built directly as trees, and what the walk and the tag
    operations do on them. They mirror scenarios of `lib/test_xarray.c`. */
module XaExamples {
  import opened Bits
  import opened XaEntry
  import opened XaNode
  import opened XaWalk
  import opened XaTag

  const NoTags: seq<set<nat>> := [{}, {}, {}]

  function Empty(): seq<Entry> {
    seq(CHUNK_SIZE, i => Null)
  }

  /** One node at shift 0 holding the values 0 and 1 at indices 0 and 1. */
  function TwoValues(): XArray {
    var slots := Empty()[0 := Item(MkValue(0))][1 := Item(MkValue(1))];
    XArray(Flags({}, 0), NodeRef(Node(0, slots, NoTags)))
  }

  /** The value 0 stored with order 1: slot 0 holds it, slot 1 is its
      sibling. */
  function OrderOne(): XArray {
    var slots := Empty()[0 := Item(MkValue(0))][1 := Sibling(0)];
    XArray(Flags({}, 0), NodeRef(Node(0, slots, NoTags)))
  }

  lemma Pow2Small()
    ensures Pow2(0) == 1 && Pow2(CHUNK_SHIFT) == CHUNK_SIZE
  {
    ChunkSizeIsPow2();
  }

  lemma TwoValuesWF()
    ensures WF(TwoValues()) && Inv(TwoValues())
  {
    var n := TwoValues().head.node;
    assert WFNode(n);
    forall o | 0 <= o < CHUNK_SIZE
      ensures SlotTagInv(n, o)
    {
    }
  }

  /** Loading each of the two stored indices finds its value; the next index
      is empty, and index 64 is beyond the node's reach. */
  lemma TwoValuesLoad()
    ensures WF(TwoValues())
    ensures XaLoad(TwoValues(), 0) == Item(MkValue(0))
    ensures XaLoad(TwoValues(), 1) == Item(MkValue(1))
    ensures XaLoad(TwoValues(), 2) == Null
    ensures XaLoad(TwoValues(), 64) == Null
    ensures LoadState(TwoValues(), 64).node == Bounds
  {
    TwoValuesWF();
    Pow2Small();
  }

  /** A multi-index entry is found from every index it covers; the walk ends
      at its canonical slot with the index moved to the entry's first index. */
  lemma OrderOneLoad()
    ensures WF(OrderOne())
    ensures XaLoad(OrderOne(), 0) == Item(MkValue(0))
    ensures XaLoad(OrderOne(), 1) == Item(MkValue(0))
    ensures LoadState(OrderOne(), 1).offset == 0 && LoadState(OrderOne(), 1).index == 0
    ensures XaLoad(OrderOne(), 2) == Null
  {
    var n := OrderOne().head.node;
    assert WFNode(n);
    Pow2Small();
  }

  /** Tag scenario at index 0 with the value stored directly in the head:
      no tag before, set-then-get, no tag at the next index or in another
      class. */
  lemma BareHeadTags()
    ensures var xa := XArray(Flags({}, 0), Item(MkValue(0)));
      && Inv(xa)
      && !XaGetTag(xa, 0, 0)
      && XaGetTag(XaSetTag(xa, 0, 0), 0, 0)
      && !XaGetTag(XaSetTag(xa, 0, 0), 1, 0)
      && !XaGetTag(XaSetTag(xa, 0, 0), 0, 1)
  {
    var xa := XArray(Flags({}, 0), Item(MkValue(0)));
    SetThenGet(xa, 0, 0);
    OtherClassesUnchanged(xa, 0, 0, 0, 1);
    NullHasNoTag(XaSetTag(xa, 0, 0), 1, 0);
  }

  /** On an empty array, getting and setting a tag both fail. */
  lemma EmptyArrayTags(flags: Flags, index: Index, t: Tag)
    requires flags.tagged == {}
    ensures Inv(InitFlags(flags))
    ensures !XaGetTag(InitFlags(flags), index, t)
    ensures !XaGetTag(XaSetTag(InitFlags(flags), index, t), index, t)
  {
    NullHasNoTag(InitFlags(flags), index, t);
  }

  /** Tag scenario on the two-value node: setting the tag of index 1 marks
      it, leaves index 0 and the other classes clear, sets the array flag,
      and clearing it again restores the empty flag. */
  lemma TwoValuesTags()
    ensures WF(TwoValues())
    ensures XaGetTag(XaSetTag(TwoValues(), 1, 0), 1, 0)
    ensures !XaGetTag(XaSetTag(TwoValues(), 1, 0), 0, 0)
    ensures !XaGetTag(XaSetTag(TwoValues(), 1, 0), 1, 2)
    ensures Tagged(XaSetTag(TwoValues(), 1, 0), 0)
    ensures !XaGetTag(XaClearTag(XaSetTag(TwoValues(), 1, 0), 1, 0), 1, 0)
  {
    var xa := TwoValues();
    TwoValuesWF();
    TwoValuesLoad();
    Pow2Small();
    var xa2 := XaSetTag(xa, 1, 0);
    SetThenGet(xa, 1, 0);
    LoadConsistent(xa, 0);
    LoadConsistent(xa, 1);
    OtherEntriesUnchanged(xa, 1, 0, 0);
    XaGetTagIsLeafBit(xa, 0, 0);
    OtherClassesUnchanged(xa, 1, 1, 0, 2);
    XaGetTagIsLeafBit(xa, 1, 2);
    ClearThenGet(xa2, 1, 0);
  }
}
