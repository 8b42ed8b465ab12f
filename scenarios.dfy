/**
  Small concrete runs of `add` and `search`, worked out on the model.
 */
module Scenarios {
  import opened FatNode
  import opened Arena
  import opened MapSpec

  // The states of the run add(1, 10), add(2, 20).

  function Two1(): MapState
  {
    MapState([Node(1, 10, None, None, [], [])], map[1 := 0], 1)
  }

  function Two2(): MapState
  {
    MapState([Node(1, 10, None, None, [], [Mod(Some(1), 2)]),
              Node(2, 20, None, Some(0), [], [])], map[1 := 0], 2)
  }

  lemma TwoStep2()
    ensures AddSpec(Empty(), 1, 10) == Two1()
    ensures ValidState(Two1()) && AddSpec(Two1(), 2, 20) == Two2()
  {
    var ns := Two1().nodes;
    assert 1 in Two1().head;
    assert HeadAt(Two1().head, 2) == 0;
    assert Successor(ns, 0, 2) == None;
    var ns2 := Link(ns, Node(2, 20, None, Some(0), [], []));
    assert ns2 == [ns[0], Node(2, 20, None, Some(0), [], [])];
    assert !Full(ns2[0]);
    assert ns2[0].modNext + [Mod(Some(1), 2)] == [Mod(Some(1), 2)];
    assert UpdateNextSpec(ns2, 0, Some(1), 2, 2) == Two2().nodes;
    assert Insert(ns, 0, None, 2, 20, 2) == Two2().nodes;
  }

  /** After add(1, 10) and add(2, 20), version 1 sees key 1 only. */
  lemma TwoAddsFirst()
    ensures ValidState(Two2()) && HasHeadAtMost(Two2().head, 1)
    ensures SearchSpec(Two2(), 1, 1) == 10 && SearchSpec(Two2(), 2, 1) == 0
  {
    TwoStep2();
    var s := Two2();
    assert 1 in s.head;
    assert HeadAt(s.head, 1) == 0;
    assert NextAt(s.nodes[0], 1) == None;
    assert SearchFrom(s.nodes, Some(0), 2, 1, 2) == SearchFrom(s.nodes, None, 2, 1, 1);
  }

  /** ... and version 2 sees both keys. */
  lemma TwoAddsSecond()
    ensures ValidState(Two2()) && HasHeadAtMost(Two2().head, 2)
    ensures SearchSpec(Two2(), 1, 2) == 10 && SearchSpec(Two2(), 2, 2) == 20
  {
    TwoStep2();
    var s := Two2();
    assert 1 in s.head;
    assert HeadAt(s.head, 2) == 0;
    assert LeadingRun(s.nodes[0].modNext, 2) == 1;
    assert Successor(s.nodes, 0, 2) == Some(1);
    assert ValueAt(s.nodes[0], 2) == 10 && ValueAt(s.nodes[1], 2) == 20;
    assert SearchFrom(s.nodes, Some(1), 2, 2, 1) == 20;
    assert SearchFrom(s.nodes, Some(0), 2, 2, 2) == 20;
  }

  // The states of the run add(0, 0), add(2, 2), add(1, 1).

  function Chain1(): MapState
  {
    MapState([Node(0, 0, None, None, [], [])], map[1 := 0], 1)
  }

  function Chain2(): MapState
  {
    MapState([Node(0, 0, None, None, [], [Mod(Some(1), 2)]),
              Node(2, 2, None, Some(0), [], [])], map[1 := 0], 2)
  }

  function Chain3(): MapState
  {
    MapState([Node(0, 0, None, None, [], [Mod(Some(1), 2), Mod(Some(2), 3)]),
              Node(2, 2, None, Some(2), [], [Mod(Some(3), 3)]),
              Node(1, 1, Some(1), Some(0), [], []),
              Node(1, 1, None, Some(1), [], [])], map[1 := 0], 3)
  }

  lemma ChainStep1()
    ensures AddSpec(Empty(), 0, 0) == Chain1()
  {
  }

  lemma ChainStep2()
    ensures ValidState(Chain1()) && AddSpec(Chain1(), 2, 2) == Chain2()
  {
    ChainStep1();
    var ns := Chain1().nodes;
    assert HeadAt(Chain1().head, 2) == 0;
    assert Successor(ns, 0, 2) == None;
    var ns2 := Link(ns, Node(2, 2, None, Some(0), [], []));
    assert ns2 == [ns[0], Node(2, 2, None, Some(0), [], [])];
    assert !Full(ns2[0]);
    assert ns2[0].modNext + [Mod(Some(1), 2)] == [Mod(Some(1), 2)];
    assert UpdateNextSpec(ns2, 0, Some(1), 2, 2) == Chain2().nodes;
    assert Insert(ns, 0, None, 2, 2, 2) == Chain2().nodes;
  }

  /** The first insertion of add(1, 1): between the nodes keyed 0 and 2. */
  lemma ChainInsertMiddle()
    ensures Wf(Chain2().nodes)
    ensures Insert(Chain2().nodes, 0, Some(1), 1, 1, 3) ==
      [Chain3().nodes[0], Chain2().nodes[1].(back := Some(2)), Chain3().nodes[2]]
  {
    ChainStep2();
    var ns := Chain2().nodes;
    var ns2 := Link(ns, Node(1, 1, Some(1), Some(0), [], []));
    assert ns2 == [ns[0], ns[1].(back := Some(2)), Node(1, 1, Some(1), Some(0), [], [])];
    assert !Full(ns2[0]);
    assert ns2[0].modNext + [Mod(Some(2), 3)] == [Mod(Some(1), 2), Mod(Some(2), 3)];
  }

  /** The second insertion of add(1, 1): a node keyed 1 after the tail keyed 2. */
  lemma ChainInsertTail(nsA: seq<Node>)
    requires nsA == [Chain3().nodes[0], Chain2().nodes[1].(back := Some(2)), Chain3().nodes[2]]
    ensures Wf(nsA) && Successor(nsA, 1, 3) == None
    ensures Insert(nsA, 1, None, 1, 1, 3) == Chain3().nodes
  {
    assert NodeWf(nsA[0], 3) && NodeWf(nsA[1], 3) && NodeWf(nsA[2], 3);
    assert Wf(nsA);
    var ns2 := Link(nsA, Node(1, 1, None, Some(1), [], []));
    assert ns2 == nsA + [Node(1, 1, None, Some(1), [], [])];
    assert !Full(ns2[1]);
    assert ns2[1].modNext + [Mod(Some(3), 3)] == [Mod(Some(3), 3)];
    assert UpdateNextSpec(ns2, 1, Some(3), 3, 4) == Chain3().nodes;
  }

  /** The loop of add(1, 1) from the head: the two insertions above. */
  lemma ChainWalk3()
    ensures Wf(Chain2().nodes) && AddWalk(Chain2().nodes, Some(0), 1, 1, 3, 2) == Chain3().nodes
  {
    ChainInsertMiddle();
    var ns := Chain2().nodes;
    assert Successor(ns, 0, 3) == Some(1);
    var nsA := Insert(ns, 0, Some(1), 1, 1, 3);
    ChainInsertTail(nsA);
    assert AddWalk(nsA, Some(1), 1, 1, 3, 1) == Chain3().nodes;
  }

  lemma ChainStep3()
    ensures ValidState(Chain2()) && AddSpec(Chain2(), 1, 1) == Chain3()
  {
    ChainStep2();
    ChainWalk3();
    assert HeadAt(Chain2().head, 3) == 0;
  }

  /**
    add(0), add(2), add(1): the middle insertion of key 1 runs on from the old
    successor (key 2), whose next is null, so a second node keyed 1 is appended
    after the tail. The chain of version 3 holds the keys 0, 1, 2, 1; search
    still finds the value in the first node keyed 1.
   */
  lemma DuplicateTail()
    ensures ValidState(Chain3())
    ensures var s := Chain3();
            |s.nodes| == 4 && 1 in s.head && HeadAt(s.head, 3) == 0 &&
            s.nodes[0].key == 0 && s.nodes[2].key == 1 && s.nodes[1].key == 2 && s.nodes[3].key == 1 &&
            NextAt(s.nodes[0], 3) == Some(2) && NextAt(s.nodes[2], 3) == Some(1) &&
            NextAt(s.nodes[1], 3) == Some(3) && NextAt(s.nodes[3], 3) == None &&
            SearchSpec(s, 1, 3) == 1
  {
    ChainStep3();
    var s := Chain3();
    assert HeadAt(s.head, 3) == 0;
    assert NextAt(s.nodes[0], 3) == Some(2);
    assert Successor(s.nodes, 0, 3) == Some(2);
    assert SearchFrom(s.nodes, Some(0), 1, 3, 4) == SearchFrom(s.nodes, Some(2), 1, 3, 3);
  }

  // The states of the run add(0, 1), add(0, 2), add(0, 3), add(0, 4).

  function Full3(): MapState
  {
    MapState([Node(0, 1, None, None, [Mod(2, 2), Mod(3, 3)], [])], map[1 := 0], 3)
  }

  lemma FullStep()
    ensures AddSpec(AddSpec(AddSpec(Empty(), 0, 1), 0, 2), 0, 3) == Full3()
  {
    var s1 := AddSpec(Empty(), 0, 1);
    assert s1 == MapState([Node(0, 1, None, None, [], [])], map[1 := 0], 1);
    var s2 := AddSpec(s1, 0, 2);
    assert HeadAt(s1.head, 2) == 0;
    assert s2 == MapState([Node(0, 1, None, None, [Mod(2, 2)], [])], map[1 := 0], 2);
    assert HeadAt(s2.head, 3) == 0;
    assert !Full(s2.nodes[0]);
    assert [Mod(2, 2)] + [Mod(3, 3)] == [Mod(2, 2), Mod(3, 3)];
    assert UpdateValSpec(s2.nodes, 0, 3, 3) == Full3().nodes;
    assert AddSpec(s2, 0, 3) == Full3();
  }

  function Lost4(): MapState
  {
    MapState(Full3().nodes + [Node(0, 4, None, None, [], [])], map[1 := 0], 4)
  }

  lemma LostRun()
    ensures ValidState(Full3()) && AddSpec(Full3(), 0, 4) == Lost4()
  {
    FullStep();
    var s3 := Full3();
    assert HeadAt(s3.head, 4) == 0;
    assert Full(s3.nodes[0]);
    var c := Flatten(s3.nodes[0]).(value := 4);
    assert c == Node(0, 4, None, None, [], []);
    assert Link(s3.nodes, c) == Lost4().nodes;
    assert UpdateValSpec(s3.nodes, 0, 4, 4) == Lost4().nodes;
  }

  /**
    Four adds of key 0: the head node's two log slots fill at versions 2 and
    3, so the fourth add rebuilds it; the copy has no predecessor and is not
    recorded as a head, and version 4 still reads the value of version 3.
   */
  lemma LostHeadUpdate()
    ensures ValidState(Lost4())
    ensures var s := Lost4();
            |s.nodes| == 2 && 1 in s.head && HeadAt(s.head, 4) == 0 &&
            ValueAt(s.nodes[1], 4) == 4 && SearchSpec(s, 0, 4) == 3
  {
    LostRun();
    var s := Lost4();
    assert HeadAt(s.head, 4) == 0;
    assert LeadingRun(s.nodes[0].modVal, 4) == 2;
  }
}
