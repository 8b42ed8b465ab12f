/**
  The partially persistent map PPMap<int, int> (ppmap.cpp): the arena of
  nodes, the sparse head index and the version counter as fields, updated in
  place by `Add` and the node update protocol, and read by `Search`.
 */
module PersistentMap {
  import opened FatNode
  import opened Arena
  import opened MapSpec

  class PPMap {
    var nodes: seq<Node>
    var head: map<nat, nat>
    var version: nat

    function State(): MapState
      reads this
    {
      MapState(nodes, head, version)
    }

    ghost predicate Valid()
      reads this
    {
      ValidState(State())
    }

    /** A map with no nodes, no head and version 0. */
    constructor ()
      ensures Valid() && State() == Empty()
    {
      nodes := [];
      head := map[];
      version := 0;
    }

    /** currVersion(): the version of the last add, 0 exactly while the map is empty. */
    function CurrVersion(): (v: nat)
      reads this
      ensures Valid() ==> (v == 0 <==> head == map[])
    {
      version
    }

    /** getHead(v): the head of version `v` (MapSpec.HeadAt), a node of the arena. */
    function GetHead(v: nat): (h: nat)
      reads this
      requires HasHeadAtMost(head, v)
      requires forall w :: w in head ==> head[w] < |nodes|
      ensures h < |nodes| && h == HeadAt(head, v)
    {
      HeadAt(head, v)
    }

    /** node::updateVal on node `i`; the head index and the version are not touched. */
    method UpdateVal(i: nat, x: int, ver: nat)
      requires Wf(nodes) && i < |nodes|
      modifies this`nodes
      ensures nodes == UpdateValSpec(old(nodes), i, x, ver)
    {
      assert NodeWf(nodes[i], |nodes|);
      if !Full(nodes[i]) {
        nodes := nodes[i := nodes[i].(modVal := nodes[i].modVal + [Mod(x, ver)])];
        return;
      }
      var copy := MakeNew(nodes[i]);
      copy := copy.(value := x);
      Splice(copy, ver, |nodes|);
    }

    /** node::updateNext on node `i`, with `fuel` bounding the rebuild cascade. */
    method UpdateNext(i: nat, nxt: Option<nat>, ver: nat, fuel: nat)
      requires Wf(nodes) && i < |nodes| && InRange(nxt, |nodes|)
      modifies this`nodes
      ensures nodes == UpdateNextSpec(old(nodes), i, nxt, ver, fuel)
      decreases fuel, 0
    {
      assert NodeWf(nodes[i], |nodes|);
      if !Full(nodes[i]) {
        nodes := nodes[i := nodes[i].(modNext := nodes[i].modNext + [Mod(nxt, ver)])];
        return;
      }
      if fuel == 0 {
        return;
      }
      var copy := MakeNew(nodes[i]);
      copy := copy.(next := nxt);
      Splice(copy, ver, fuel - 1);
    }

    /**
      Allocates node `c` at the end of the arena and points the back pointer
      of its successor, if any, at it; `n` is the new node's index.
     */
    method LinkNode(c: Node) returns (n: nat)
      requires Wf(nodes) && NodeWf(c, |nodes|)
      modifies this`nodes
      ensures nodes == Link(old(nodes), c) && n == |old(nodes)|
    {
      n := |nodes|;
      nodes := nodes + [c];
      if c.next.Some? {
        nodes := nodes[c.next.value := nodes[c.next.value].(back := Some(n))];
      }
    }

    /**
      Links the rebuilt copy `c` and, when it has a predecessor, updates that
      predecessor's next to it.
     */
    method Splice(c: Node, ver: nat, fuel: nat)
      requires Wf(nodes) && NodeWf(c, |nodes|)
      modifies this`nodes
      ensures nodes == Arena.Splice(old(nodes), c, ver, fuel)
      decreases fuel, 1
    {
      var n := LinkNode(c);
      if c.back.Some? {
        UpdateNext(c.back.value, Some(n), ver, fuel);
      }
    }

    /** The insertion of `add`: a new node between `c` and `next`, linked in at version `ver`. */
    method InsertAfter(c: nat, next: Option<nat>, key: int, value: int, ver: nat)
      requires Wf(nodes) && c < |nodes| && InRange(next, |nodes|)
      modifies this`nodes
      ensures nodes == Insert(old(nodes), c, next, key, value, ver)
    {
      var n := LinkNode(Node(key, value, next, Some(c), [], []));
      UpdateNext(c, Some(n), ver, |nodes|);
    }

    /** The loop of `add` from node `p` on, taking at most `fuel` steps, at version `ver`. */
    method WalkFrom(p: Option<nat>, key: int, value: int, ver: nat, fuel: nat)
      requires Wf(nodes) && InRange(p, |nodes|)
      modifies this`nodes
      ensures nodes == AddWalk(old(nodes), p, key, value, ver, fuel)
    {
      ghost var target := AddWalk(nodes, p, key, value, ver, fuel);
      var curr := p;
      var steps := fuel;
      while curr.Some? && steps > 0
        invariant Wf(nodes) && InRange(curr, |nodes|)
        invariant AddWalk(nodes, curr, key, value, ver, steps) == target
        decreases steps
      {
        var c := curr.value;
        if nodes[c].key == key {
          UpdateVal(c, value, ver);
          return;
        }
        var next := GetNext(nodes[c], ver);
        assert next == Successor(nodes, c, ver);
        if next == None || (key > nodes[c].key && key < nodes[next.value].key) {
          InsertAfter(c, next, key, value, ver);
        }
        curr := next;
        steps := steps - 1;
      }
    }

    /**
      add(key, value): one new version, and the map is what AddSpec says: in
      particular Valid, and every search at an older version is unchanged
      (MapSpec.AddKeepsHistory).
     */
    method Add(key: int, value: int)
      requires Valid()
      modifies this
      ensures State() == AddSpec(old(State()), key, value)
      ensures Valid()
      ensures CurrVersion() == old(CurrVersion()) + 1
    {
      ghost var s := State();
      version := version + 1;
      if head == map[] {
        var n := LinkNode(Node(key, value, None, None, [], []));
        head := head[version := n];
        return;
      }
      HeadAtNextVersion(s);
      var curr := GetHead(version);
      assert NodeWf(nodes[curr], |nodes|);
      if key < nodes[curr].key {
        var n := LinkNode(Node(key, value, Some(curr), None, [], []));
        head := head[version := n];
        return;
      }
      WalkFrom(Some(curr), key, value, version, |nodes|);
    }

    /**
      search(key, v): the value the first node keyed `key` on the chain of
      version `v` holds at `v`, or the default 0. The head index must have an
      entry at or before `v` (the source decrements begin() otherwise).
     */
    method Search(key: int, v: nat) returns (r: int)
      requires Valid() && HasHeadAtMost(head, v)
      ensures r == SearchSpec(State(), key, v)
    {
      var curr := Some(GetHead(v));
      var fuel: nat := |nodes|;
      while curr != None && fuel > 0
        invariant InRange(curr, |nodes|)
        invariant SearchFrom(nodes, curr, key, v, fuel) == SearchSpec(State(), key, v)
        decreases fuel
      {
        var c := curr.value;
        if nodes[c].key == key {
          r := GetValue(nodes[c], v);
          return;
        }
        curr := GetNext(nodes[c], v);
        assert curr == Successor(nodes, c, v);
        fuel := fuel - 1;
      }
      return 0;
    }
  }
}
