/**
  The node arena of the map and the node update protocol (updateVal,
  updateNext and the rebuild cascade through back pointers), stated as
  functions from the arena before a call to the arena after it. Allocating a
  node is appending it; a pointer is an index; NULL is None.
 */
module Arena {
  import opened FatNode

  predicate InRange(p: Option<nat>, size: nat)
  {
    p.None? || p.value < size
  }

  /** Every pointer a node holds, base or logged, names a node of an arena of `size` nodes. */
  ghost predicate NodeWf(n: Node, size: nat)
  {
    InRange(n.next, size) && InRange(n.back, size) &&
    forall k :: 0 <= k < |n.modNext| ==> InRange(n.modNext[k].newVal, size)
  }

  ghost predicate Wf(ns: seq<Node>)
  {
    forall i :: 0 <= i < |ns| ==> NodeWf(ns[i], |ns|)
  }

  /** No node holds more log entries than the shared capacity. */
  ghost predicate WithinCapacity(ns: seq<Node>)
  {
    forall i :: 0 <= i < |ns| ==> |ns[i].modVal| + |ns[i].modNext| <= CAPACITY
  }

  /** Every log of every node is ordered by version and holds nothing newer than `ver`. */
  ghost predicate LogsUpTo(ns: seq<Node>, ver: nat)
  {
    forall i :: 0 <= i < |ns| ==> LogUpTo(ns[i].modVal, ver) && LogUpTo(ns[i].modNext, ver)
  }

  /** `l2` is `l` followed by entries made at version `ver` only. */
  ghost predicate LogExtends<T>(l: seq<Mod<T>>, l2: seq<Mod<T>>, ver: nat)
  {
    |l| <= |l2| && l2[..|l|] == l &&
    forall k :: |l| <= k < |l2| ==> l2[k].version == ver
  }

  ghost predicate NodeExtends(m: Node, n: Node, ver: nat)
  {
    n.key == m.key && n.value == m.value && n.next == m.next &&
    LogExtends(m.modVal, n.modVal, ver) && LogExtends(m.modNext, n.modNext, ver)
  }

  /**
    The arena `b` grew out of `a` by the updates of version `ver`: nodes were
    only appended, no key or base field changed, logs were only appended to,
    and every new log entry, on an old node or an appended one, is at `ver`.
    Back pointers are not versioned and may change freely.
   */
  ghost predicate Extends(a: seq<Node>, b: seq<Node>, ver: nat)
  {
    |a| <= |b| &&
    (forall i :: 0 <= i < |a| ==> NodeExtends(a[i], b[i], ver)) &&
    (forall i :: |a| <= i < |b| ==>
       LogExtends([], b[i].modVal, ver) && LogExtends([], b[i].modNext, ver))
  }

  /** No value log of an old node changed, and the appended nodes have none. */
  ghost predicate ValuesKept(a: seq<Node>, b: seq<Node>)
  {
    |a| <= |b| &&
    (forall i :: 0 <= i < |a| ==> b[i].modVal == a[i].modVal) &&
    (forall i :: |a| <= i < |b| ==> b[i].modVal == [])
  }

  /** The successor of node `c` at version `v` names a node of the arena. */
  function Successor(ns: seq<Node>, c: nat, v: nat): (p: Option<nat>)
    requires Wf(ns) && c < |ns|
    ensures InRange(p, |ns|)
  {
    NextAt(ns[c], v)
  }

  function SetBack(ns: seq<Node>, j: nat, b: nat): seq<Node>
    requires j < |ns|
  {
    ns[j := ns[j].(back := Some(b))]
  }

  lemma WfAppend(ns: seq<Node>, c: Node)
    requires Wf(ns) && NodeWf(c, |ns|)
    ensures Wf(ns + [c])
  {
    var ns' := ns + [c];
    forall i | 0 <= i < |ns'| ensures NodeWf(ns'[i], |ns'|) {
      var n := ns'[i];
      assert NodeWf(n, |ns|);
      assert forall k :: 0 <= k < |n.modNext| ==> InRange(n.modNext[k].newVal, |ns|);
    }
  }

  lemma WfSetBack(ns: seq<Node>, j: nat, b: nat)
    requires Wf(ns) && j < |ns| && b < |ns|
    ensures Wf(SetBack(ns, j, b))
  {
    var ns' := SetBack(ns, j, b);
    forall i | 0 <= i < |ns'| ensures NodeWf(ns'[i], |ns'|) {
      assert NodeWf(ns[i], |ns|);
    }
  }

  /** updateNext (ppmap.cpp, node::updateNext): push in place, or rebuild and splice. */
  function UpdateNextSpec(ns: seq<Node>, i: nat, nxt: Option<nat>, ver: nat, fuel: nat): (r: seq<Node>)
    requires Wf(ns) && i < |ns| && InRange(nxt, |ns|)
    ensures Wf(r) && |ns| <= |r|
    decreases fuel, 0
  {
    if !Full(ns[i]) then
      var n := ns[i];
      assert NodeWf(n, |ns|);
      var ns' := ns[i := n.(modNext := n.modNext + [Mod(nxt, ver)])];
      assert NodeWf(ns'[i], |ns|);
      assert forall j :: 0 <= j < |ns| && j != i ==> ns'[j] == ns[j];
      ns'
    else if fuel == 0 then
      ns
    else
      assert NodeWf(ns[i], |ns|);
      Splice(ns, Flatten(ns[i]).(next := nxt), ver, fuel - 1)
  }

  /**
    The common tail of updateVal and updateNext on a full node: append the
    copy, point its successor's back at it, and, when the copy has a
    predecessor, make that predecessor point at the copy from `ver` on.
   */
  function Splice(ns: seq<Node>, c: Node, ver: nat, fuel: nat): (r: seq<Node>)
    requires Wf(ns) && NodeWf(c, |ns|)
    ensures Wf(r) && |ns| < |r|
    decreases fuel, 1
  {
    var ns2 := Link(ns, c);
    if c.back.Some? then UpdateNextSpec(ns2, c.back.value, Some(|ns|), ver, fuel) else ns2
  }

  /**
    Allocation of `c` (ppmap.cpp `new node`) together with the back pointer of
    its successor: the new node is `c`, its successor points back at it, and
    no other node changes.
   */
  function Link(ns: seq<Node>, c: Node): (r: seq<Node>)
    requires Wf(ns) && NodeWf(c, |ns|)
    ensures Wf(r) && |r| == |ns| + 1 && r[|ns|] == c
    ensures c.next.Some? ==> r[c.next.value] == ns[c.next.value].(back := Some(|ns|))
    ensures forall j :: 0 <= j < |ns| && c.next != Some(j) ==> r[j] == ns[j]
  {
    WfAppend(ns, c);
    var ns1 := ns + [c];
    if c.next.Some? then
      WfSetBack(ns1, c.next.value, |ns|);
      SetBack(ns1, c.next.value, |ns|)
    else ns1
  }

  /** updateVal (ppmap.cpp, node::updateVal): push in place, or rebuild and splice. */
  function UpdateValSpec(ns: seq<Node>, i: nat, x: int, ver: nat): (r: seq<Node>)
    requires Wf(ns) && i < |ns|
    ensures Wf(r) && |ns| <= |r|
  {
    if !Full(ns[i]) then
      var n := ns[i];
      assert NodeWf(n, |ns|);
      var ns' := ns[i := n.(modVal := n.modVal + [Mod(x, ver)])];
      assert NodeWf(ns'[i], |ns|);
      assert forall j :: 0 <= j < |ns| && j != i ==> ns'[j] == ns[j];
      ns'
    else
      assert NodeWf(ns[i], |ns|);
      Splice(ns, Flatten(ns[i]).(value := x), ver, |ns|)
  }

  lemma ExtendsRefl(a: seq<Node>, ver: nat)
    ensures Extends(a, a, ver) && ValuesKept(a, a)
  {
    forall i | 0 <= i < |a| ensures NodeExtends(a[i], a[i], ver) {
      assert a[i].modVal[..|a[i].modVal|] == a[i].modVal;
      assert a[i].modNext[..|a[i].modNext|] == a[i].modNext;
    }
  }

  lemma LogExtendsTrans<T>(l1: seq<Mod<T>>, l2: seq<Mod<T>>, l3: seq<Mod<T>>, ver: nat)
    requires LogExtends(l1, l2, ver) && LogExtends(l2, l3, ver)
    ensures LogExtends(l1, l3, ver)
  {
    assert l3[..|l1|] == l3[..|l2|][..|l1|];
    forall k | |l1| <= k < |l3| ensures l3[k].version == ver {
      if k < |l2| {
        assert l3[k] == l3[..|l2|][k] == l2[k];
      }
    }
  }

  lemma ExtendsTrans(a: seq<Node>, b: seq<Node>, c: seq<Node>, ver: nat)
    requires Extends(a, b, ver) && Extends(b, c, ver)
    ensures Extends(a, c, ver)
  {
    forall i | 0 <= i < |a| ensures NodeExtends(a[i], c[i], ver) {
      LogExtendsTrans(a[i].modVal, b[i].modVal, c[i].modVal, ver);
      LogExtendsTrans(a[i].modNext, b[i].modNext, c[i].modNext, ver);
    }
    forall i | |a| <= i < |c|
      ensures LogExtends([], c[i].modVal, ver) && LogExtends([], c[i].modNext, ver)
    {
      if i < |b| {
        LogExtendsTrans([], b[i].modVal, c[i].modVal, ver);
        LogExtendsTrans([], b[i].modNext, c[i].modNext, ver);
      }
    }
  }

  lemma ValuesKeptTrans(a: seq<Node>, b: seq<Node>, c: seq<Node>)
    requires ValuesKept(a, b) && ValuesKept(b, c)
    ensures ValuesKept(a, c)
  {
  }

  /** Appending a node with empty logs, or resetting a back pointer, extends the arena. */
  lemma ExtendsByLinking(ns: seq<Node>, c: Node, ver: nat)
    requires Wf(ns) && NodeWf(c, |ns|) && c.modVal == [] && c.modNext == []
    ensures Extends(ns, Link(ns, c), ver) && ValuesKept(ns, Link(ns, c))
    ensures Link(ns, c)[|ns|].(back := c.back) == c
    ensures WithinCapacity(ns) ==> WithinCapacity(Link(ns, c))
    ensures forall j :: 0 <= j < |ns| ==> Link(ns, c)[j].(back := ns[j].back) == ns[j]
  {
    ExtendsRefl(ns, ver);
  }

  /**
    The rebuild cascade of updateNext only appends nodes, changes no key and
    no base field, appends to logs only at `ver`, leaves every value log
    alone, and keeps every node within the shared capacity.
   */
  lemma {:induction false} UpdateNextPreserves(ns: seq<Node>, i: nat, nxt: Option<nat>, ver: nat, fuel: nat)
    requires Wf(ns) && i < |ns| && InRange(nxt, |ns|)
    ensures Extends(ns, UpdateNextSpec(ns, i, nxt, ver, fuel), ver)
    ensures ValuesKept(ns, UpdateNextSpec(ns, i, nxt, ver, fuel))
    ensures WithinCapacity(ns) ==> WithinCapacity(UpdateNextSpec(ns, i, nxt, ver, fuel))
    decreases fuel, 0
  {
    var r := UpdateNextSpec(ns, i, nxt, ver, fuel);
    if !Full(ns[i]) {
      ExtendsRefl(ns, ver);
      var l := ns[i].modNext;
      assert r[i].modNext == l + [Mod(nxt, ver)];
      assert (l + [Mod(nxt, ver)])[..|l|] == l;
      assert NodeExtends(ns[i], r[i], ver);
      assert forall j :: 0 <= j < |ns| && j != i ==> r[j] == ns[j];
    } else if fuel == 0 {
      ExtendsRefl(ns, ver);
    } else {
      assert NodeWf(ns[i], |ns|);
      SplicePreserves(ns, Flatten(ns[i]).(next := nxt), ver, fuel - 1);
    }
  }

  lemma {:induction false} SplicePreserves(ns: seq<Node>, c: Node, ver: nat, fuel: nat)
    requires Wf(ns) && NodeWf(c, |ns|) && c.modVal == [] && c.modNext == []
    ensures Extends(ns, Splice(ns, c, ver, fuel), ver)
    ensures ValuesKept(ns, Splice(ns, c, ver, fuel))
    ensures WithinCapacity(ns) ==> WithinCapacity(Splice(ns, c, ver, fuel))
    ensures Splice(ns, c, ver, fuel)[|ns|].key == c.key
    ensures Splice(ns, c, ver, fuel)[|ns|].value == c.value
    ensures Splice(ns, c, ver, fuel)[|ns|].next == c.next
    decreases fuel, 1
  {
    var n := |ns|;
    var ns2 := Link(ns, c);
    ExtendsByLinking(ns, c, ver);
    if c.back.Some? {
      var r := UpdateNextSpec(ns2, c.back.value, Some(n), ver, fuel);
      UpdateNextPreserves(ns2, c.back.value, Some(n), ver, fuel);
      ExtendsTrans(ns, ns2, r, ver);
      ValuesKeptTrans(ns, ns2, r);
      assert NodeExtends(ns2[n], r[n], ver);
    }
  }

  /**
    The rebuild cascade of updateNext sets the back pointer of no old node
    except the new successor `nxt`.
   */
  lemma {:induction false} UpdateNextBacks(ns: seq<Node>, i: nat, nxt: Option<nat>, ver: nat, fuel: nat)
    requires Wf(ns) && i < |ns| && InRange(nxt, |ns|)
    ensures forall j :: 0 <= j < |ns| && nxt != Some(j) ==> UpdateNextSpec(ns, i, nxt, ver, fuel)[j].back == ns[j].back
    decreases fuel, 0
  {
    var r := UpdateNextSpec(ns, i, nxt, ver, fuel);
    if !Full(ns[i]) {
      assert r == ns[i := ns[i].(modNext := ns[i].modNext + [Mod(nxt, ver)])];
    } else if fuel == 0 {
      assert r == ns;
    } else {
      assert NodeWf(ns[i], |ns|);
      var copy := Flatten(ns[i]).(next := nxt);
      assert r == Splice(ns, copy, ver, fuel - 1);
      SpliceBacks(ns, copy, ver, fuel - 1);
    }
  }

  /**
    The splice of a copy points the back of the copy's successor at the copy,
    and the back pointer of no other old node changes.
   */
  lemma {:induction false} SpliceBacks(ns: seq<Node>, c: Node, ver: nat, fuel: nat)
    requires Wf(ns) && NodeWf(c, |ns|)
    ensures forall j :: 0 <= j < |ns| && c.next != Some(j) ==> Splice(ns, c, ver, fuel)[j].back == ns[j].back
    ensures c.next.Some? ==> Splice(ns, c, ver, fuel)[c.next.value].back == Some(|ns|)
    decreases fuel, 1
  {
    if c.back.Some? {
      UpdateNextBacks(Link(ns, c), c.back.value, Some(|ns|), ver, fuel);
    }
  }

  /**
    The links made by the rebuild: the copy's successor points back at the
    copy; without a predecessor nothing else changes; a predecessor that is
    not full points at the copy from `ver` on.
   */
  lemma SpliceLinks(ns: seq<Node>, c: Node, ver: nat, fuel: nat)
    requires Wf(ns) && NodeWf(c, |ns|) && c.modVal == [] && c.modNext == [] && LogsUpTo(ns, ver)
    ensures c.back.None? ==> Splice(ns, c, ver, fuel) == Link(ns, c)
    ensures c.back.Some? && !Full(ns[c.back.value]) ==>
              |Splice(ns, c, ver, fuel)| == |ns| + 1 &&
              forall w: nat :: ver <= w ==> NextAt(Splice(ns, c, ver, fuel)[c.back.value], w) == Some(|ns|)
    ensures c.next.Some? ==> Splice(ns, c, ver, fuel)[c.next.value].back == Some(|ns|)
  {
    SpliceBacks(ns, c, ver, fuel);
    var ns2 := Link(ns, c);
    ExtendsByLinking(ns, c, ver);
    ExtendsKeepsLogsUpTo(ns, ns2, ver);
    if c.back.Some? && !Full(ns[c.back.value]) {
      var b := c.back.value;
      assert ns2[b].(back := ns[b].back) == ns[b];
      forall w: nat | ver <= w
        ensures NextAt(Splice(ns, c, ver, fuel)[b], w) == Some(|ns|)
      {
        UpdateNextInPlace(ns2, b, Some(|ns|), ver, fuel, w);
      }
    }
  }

  /** updateVal keeps the arena an extension at `ver` and keeps the capacity bound. */
  lemma UpdateValPreserves(ns: seq<Node>, i: nat, x: int, ver: nat)
    requires Wf(ns) && i < |ns|
    ensures Extends(ns, UpdateValSpec(ns, i, x, ver), ver)
    ensures WithinCapacity(ns) ==> WithinCapacity(UpdateValSpec(ns, i, x, ver))
  {
    var r := UpdateValSpec(ns, i, x, ver);
    if !Full(ns[i]) {
      ExtendsRefl(ns, ver);
      var l := ns[i].modVal;
      assert r[i].modVal == l + [Mod(x, ver)];
      assert (l + [Mod(x, ver)])[..|l|] == l;
      assert NodeExtends(ns[i], r[i], ver);
      assert forall j :: 0 <= j < |ns| && j != i ==> r[j] == ns[j];
    } else {
      assert NodeWf(ns[i], |ns|);
      SplicePreserves(ns, Flatten(ns[i]).(value := x), ver, |ns|);
    }
  }

  lemma LogsUpToLater(ns: seq<Node>, ver: nat, later: nat)
    requires LogsUpTo(ns, ver) && ver <= later
    ensures LogsUpTo(ns, later)
  {
    forall i | 0 <= i < |ns| ensures LogUpTo(ns[i].modVal, later) && LogUpTo(ns[i].modNext, later) {
      assert LogUpTo(ns[i].modVal, ver) && LogUpTo(ns[i].modNext, ver);
    }
  }

  /** Entries only ever made at `ver` keep every log ordered and no newer than `ver`. */
  lemma ExtendsKeepsLogsUpTo(a: seq<Node>, b: seq<Node>, ver: nat)
    requires LogsUpTo(a, ver) && Extends(a, b, ver)
    ensures LogsUpTo(b, ver)
  {
    forall i | 0 <= i < |b| ensures LogUpTo(b[i].modVal, ver) && LogUpTo(b[i].modNext, ver) {
      if i < |a| {
        LogExtendsUpTo(a[i].modVal, b[i].modVal, ver);
        LogExtendsUpTo(a[i].modNext, b[i].modNext, ver);
      } else {
        LogExtendsUpTo([], b[i].modVal, ver);
        LogExtendsUpTo([], b[i].modNext, ver);
      }
    }
  }

  lemma LogExtendsUpTo<T>(l: seq<Mod<T>>, l2: seq<Mod<T>>, ver: nat)
    requires LogUpTo(l, ver) && LogExtends(l, l2, ver)
    ensures LogUpTo(l2, ver)
  {
    forall k | 0 <= k < |l2| ensures l2[k].version <= ver {
      if k < |l| { assert l2[k] == l2[..|l|][k]; }
    }
    forall a, b | 0 <= a < b < |l2| ensures l2[a].version <= l2[b].version {
      if b < |l| {
        assert l2[a] == l2[..|l|][a] && l2[b] == l2[..|l|][b];
      } else if a < |l| {
        assert l2[a] == l2[..|l|][a];
      }
    }
  }

  /**
    What an extension at `ver` cannot change: the key of an old node and
    both of its fields as seen by any version before `ver`.
   */
  lemma ExtendsFreezesPast(a: seq<Node>, b: seq<Node>, ver: nat, i: nat, w: nat)
    requires Extends(a, b, ver) && i < |a| && w < ver
    ensures b[i].key == a[i].key
    ensures ValueAt(b[i], w) == ValueAt(a[i], w)
    ensures NextAt(b[i], w) == NextAt(a[i], w)
  {
    assert NodeExtends(a[i], b[i], ver);
    var lv, lv2 := a[i].modVal, b[i].modVal;
    assert lv2 == lv + lv2[|lv|..] by { assert lv2 == lv2[..|lv|] + lv2[|lv|..]; }
    ProjectNewerSuffix(a[i].value, lv, lv2[|lv|..], w);
    var ln, ln2 := a[i].modNext, b[i].modNext;
    assert ln2 == ln + ln2[|ln|..] by { assert ln2 == ln2[..|ln|] + ln2[|ln|..]; }
    ProjectNewerSuffix(a[i].next, ln, ln2[|ln|..], w);
  }

  /** A full node gets no log entry from an extension that respects the capacity. */
  lemma FullNodeKeepsLogs(a: seq<Node>, b: seq<Node>, i: nat, ver: nat)
    requires Extends(a, b, ver) && WithinCapacity(b) && i < |a| && Full(a[i])
    ensures b[i].modVal == a[i].modVal && b[i].modNext == a[i].modNext
  {
    assert NodeExtends(a[i], b[i], ver);
    assert |b[i].modVal| + |b[i].modNext| <= CAPACITY;
    assert b[i].modVal == b[i].modVal[..|a[i].modVal|];
    assert b[i].modNext == b[i].modNext[..|a[i].modNext|];
  }

  /**
    updateVal on a node that is not full pushes onto its value log: versions
    from `ver` on see the new value, earlier versions what they saw before,
    and no other node and no other field changes.
   */
  lemma UpdateValInPlace(ns: seq<Node>, i: nat, x: int, ver: nat, w: nat)
    requires Wf(ns) && i < |ns| && !Full(ns[i]) && LogsUpTo(ns, ver)
    ensures |UpdateValSpec(ns, i, x, ver)| == |ns|
    ensures forall j :: 0 <= j < |ns| && j != i ==> UpdateValSpec(ns, i, x, ver)[j] == ns[j]
    ensures UpdateValSpec(ns, i, x, ver)[i].(modVal := ns[i].modVal) == ns[i]
    ensures ValueAt(UpdateValSpec(ns, i, x, ver)[i], w) == if w >= ver then x else ValueAt(ns[i], w)
  {
    var l := ns[i].modVal;
    assert LogUpTo(l, ver);
    if w >= ver {
      ProjectPushed(ns[i].value, l, x, ver, w);
    } else {
      ProjectNewerSuffix(ns[i].value, l, [Mod(x, ver)], w);
    }
  }

  /** updateNext on a node that is not full pushes onto its next log, symmetrically. */
  lemma UpdateNextInPlace(ns: seq<Node>, i: nat, nxt: Option<nat>, ver: nat, fuel: nat, w: nat)
    requires Wf(ns) && i < |ns| && InRange(nxt, |ns|) && !Full(ns[i]) && LogsUpTo(ns, ver)
    ensures |UpdateNextSpec(ns, i, nxt, ver, fuel)| == |ns|
    ensures forall j :: 0 <= j < |ns| && j != i ==> UpdateNextSpec(ns, i, nxt, ver, fuel)[j] == ns[j]
    ensures UpdateNextSpec(ns, i, nxt, ver, fuel)[i].(modNext := ns[i].modNext) == ns[i]
    ensures NextAt(UpdateNextSpec(ns, i, nxt, ver, fuel)[i], w) == if w >= ver then nxt else NextAt(ns[i], w)
  {
    var l := ns[i].modNext;
    assert LogUpTo(l, ver);
    if w >= ver {
      ProjectPushed(ns[i].next, l, nxt, ver, w);
    } else {
      ProjectNewerSuffix(ns[i].next, l, [Mod(nxt, ver)], w);
    }
  }

  /**
    updateVal on a full node leaves that node's key, base fields and logs
    alone and appends a copy with the same key that holds the new value at
    every version and starts from the node's current successor.
   */
  lemma UpdateValRebuild(ns: seq<Node>, i: nat, x: int, ver: nat, w: nat)
    requires Wf(ns) && i < |ns| && Full(ns[i]) && WithinCapacity(ns) && LogsUpTo(ns, ver)
    ensures |UpdateValSpec(ns, i, x, ver)| > |ns|
    ensures UpdateValSpec(ns, i, x, ver)[i].(back := ns[i].back) == ns[i]
    ensures UpdateValSpec(ns, i, x, ver)[|ns|].key == ns[i].key
    ensures ValueAt(UpdateValSpec(ns, i, x, ver)[|ns|], w) == x
    ensures UpdateValSpec(ns, i, x, ver)[|ns|].next == NextAt(ns[i], ver)
  {
    var r := UpdateValSpec(ns, i, x, ver);
    assert NodeWf(ns[i], |ns|);
    var c := Flatten(ns[i]).(value := x);
    SplicePreserves(ns, c, ver, |ns|);
    UpdateValPreserves(ns, i, x, ver);
    FullNodeKeepsLogs(ns, r, i, ver);
    assert NodeExtends(ns[i], r[i], ver);
    assert r[|ns|].modVal == [];
    ProjectCurrent(ns[i].next, ns[i].modNext, ver);
  }

  /**
    updateNext on a full node (with fuel left for the cascade) leaves that
    node's key, base fields and logs alone and appends a copy with the same
    key that points at `nxt` and holds the node's current value at every version.
   */
  lemma UpdateNextRebuild(ns: seq<Node>, i: nat, nxt: Option<nat>, ver: nat, fuel: nat, w: nat)
    requires Wf(ns) && i < |ns| && InRange(nxt, |ns|) && Full(ns[i]) && fuel > 0
    requires WithinCapacity(ns) && LogsUpTo(ns, ver)
    ensures |UpdateNextSpec(ns, i, nxt, ver, fuel)| > |ns|
    ensures UpdateNextSpec(ns, i, nxt, ver, fuel)[i].(back := ns[i].back) == ns[i]
    ensures UpdateNextSpec(ns, i, nxt, ver, fuel)[|ns|].key == ns[i].key
    ensures UpdateNextSpec(ns, i, nxt, ver, fuel)[|ns|].next == nxt
    ensures ValueAt(UpdateNextSpec(ns, i, nxt, ver, fuel)[|ns|], w) == ValueAt(ns[i], ver)
  {
    var r := UpdateNextSpec(ns, i, nxt, ver, fuel);
    assert NodeWf(ns[i], |ns|);
    var c := Flatten(ns[i]).(next := nxt);
    SplicePreserves(ns, c, ver, fuel - 1);
    UpdateNextPreserves(ns, i, nxt, ver, fuel);
    FullNodeKeepsLogs(ns, r, i, ver);
    assert NodeExtends(ns[i], r[i], ver);
    assert r[|ns|].modVal == [];
    ProjectCurrent(ns[i].value, ns[i].modVal, ver);
  }

  /**
    updateVal on a full node without a predecessor: the copy is appended and
    only the back pointer of its successor changes, so no old node's key,
    base fields or logs change and the copy is unreachable from them.
   */
  lemma UpdateValOrphan(ns: seq<Node>, i: nat, x: int, ver: nat)
    requires Wf(ns) && i < |ns| && Full(ns[i]) && ns[i].back.None?
    ensures |UpdateValSpec(ns, i, x, ver)| == |ns| + 1
    ensures forall j :: 0 <= j < |ns| ==> UpdateValSpec(ns, i, x, ver)[j].(back := ns[j].back) == ns[j]
  {
  }
}
