/**
  The map as a value: the node arena, the sparse head index from version to
  head node, and the version counter; `add` and `search` as functions of it,
  and what they promise about versions, the head index and the past.
 */
module MapSpec {
  import opened FatNode
  import opened Arena

  datatype MapState = MapState(nodes: seq<Node>, head: map<nat, nat>, version: nat)

  /** The head index has an entry at or before version `v`. */
  ghost predicate HasHeadAtMost(head: map<nat, nat>, v: nat)
  {
    exists w :: w in head && w <= v
  }

  /**
    The invariant of the map: the arena is well formed and within capacity,
    its logs hold nothing newer than the current version, and the head index
    has entries only at versions 1 to `version`, pointing into the arena, with
    one at version 1 as soon as anything was added.
   */
  ghost predicate ValidState(s: MapState)
  {
    Wf(s.nodes) && WithinCapacity(s.nodes) && LogsUpTo(s.nodes, s.version) &&
    (forall w :: w in s.head ==> 1 <= w <= s.version && s.head[w] < |s.nodes|) &&
    (s.head == map[] <==> s.version == 0) &&
    (s.version > 0 ==> 1 in s.head)
  }

  function Empty(): (s: MapState)
    ensures ValidState(s) && s.version == 0
  {
    MapState([], map[], 0)
  }

  /** The greatest version of the head index that is at most `v` (upper_bound, then one back). */
  function Floor(head: map<nat, nat>, v: nat): (w: nat)
    requires HasHeadAtMost(head, v)
    ensures w in head && w <= v
    ensures forall u :: u in head && u <= v ==> u <= w
    decreases v
  {
    if v in head then v else Floor(head, v - 1)
  }

  /** getHead(v): the node recorded at the greatest version of the head index at most `v`. */
  function HeadAt(head: map<nat, nat>, v: nat): (h: nat)
    requires HasHeadAtMost(head, v)
    ensures exists w :: w in head && w <= v && head[w] == h && forall u :: u in head && u <= v ==> u <= w
  {
    head[Floor(head, v)]
  }

  /** The walk of `search`: value of the first node keyed `key`, or the default 0. */
  function SearchFrom(ns: seq<Node>, p: Option<nat>, key: int, v: nat, fuel: nat): int
    requires Wf(ns) && InRange(p, |ns|)
    decreases fuel
  {
    if p.None? || fuel == 0 then 0
    else if ns[p.value].key == key then ValueAt(ns[p.value], v)
    else SearchFrom(ns, Successor(ns, p.value, v), key, v, fuel - 1)
  }

  /** search(key, v): the default 0, or the value at `v` of some node keyed `key`. */
  function SearchSpec(s: MapState, key: int, v: nat): (r: int)
    requires ValidState(s) && HasHeadAtMost(s.head, v)
    ensures r == 0 || exists i :: 0 <= i < |s.nodes| && s.nodes[i].key == key && r == ValueAt(s.nodes[i], v)
  {
    SearchFromFinds(s.nodes, Some(HeadAt(s.head, v)), key, v, |s.nodes|);
    SearchFrom(s.nodes, Some(HeadAt(s.head, v)), key, v, |s.nodes|)
  }

  /** The walk of `search` returns the default 0 or the value at `v` of some node keyed `key`. */
  lemma {:induction false} SearchFromFinds(ns: seq<Node>, p: Option<nat>, key: int, v: nat, fuel: nat)
    requires Wf(ns) && InRange(p, |ns|)
    ensures SearchFrom(ns, p, key, v, fuel) == 0 ||
            exists i :: 0 <= i < |ns| && ns[i].key == key && SearchFrom(ns, p, key, v, fuel) == ValueAt(ns[i], v)
    decreases fuel
  {
    if p.Some? && fuel > 0 && ns[p.value].key != key {
      SearchFromFinds(ns, Successor(ns, p.value, v), key, v, fuel - 1);
    }
  }

  /** Links a new node keyed `key` between `c` and `next`, then updates `c`'s next. */
  function Insert(ns: seq<Node>, c: nat, next: Option<nat>, key: int, value: int, ver: nat): (r: seq<Node>)
    requires Wf(ns) && c < |ns| && InRange(next, |ns|)
    ensures Wf(r) && |ns| < |r|
  {
    var ns2 := Link(ns, Node(key, value, next, Some(c), [], []));
    UpdateNextSpec(ns2, c, Some(|ns|), ver, |ns2|)
  }

  /**
    Whether or not `c` is full, the node appended by the insertion keeps the
    key, the value and the successor `next` through the cascade.
   */
  lemma InsertAppends(ns: seq<Node>, c: nat, next: Option<nat>, key: int, value: int, ver: nat)
    requires Wf(ns) && c < |ns| && InRange(next, |ns|)
    ensures var r := Insert(ns, c, next, key, value, ver);
            |ns| < |r| && r[|ns|].key == key && r[|ns|].value == value && r[|ns|].next == next
  {
    var ns2 := Link(ns, Node(key, value, next, Some(c), [], []));
    UpdateNextPreserves(ns2, c, Some(|ns|), ver, |ns2|);
    assert NodeExtends(ns2[|ns|], Insert(ns, c, next, key, value, ver)[|ns|], ver);
  }

  /** The loop of `add` from node `p` on. */
  function AddWalk(ns: seq<Node>, p: Option<nat>, key: int, value: int, ver: nat, fuel: nat): (r: seq<Node>)
    requires Wf(ns) && InRange(p, |ns|)
    ensures Wf(r) && |ns| <= |r|
    decreases fuel
  {
    if p.None? || fuel == 0 then ns
    else
      var c := p.value;
      if ns[c].key == key then UpdateValSpec(ns, c, value, ver)
      else
        var next := Successor(ns, c, ver);
        var ns' := if next.None? || (key > ns[c].key && key < ns[next.value].key)
                   then Insert(ns, c, next, key, value, ver)
                   else ns;
        AddWalk(ns', next, key, value, ver, fuel - 1)
  }

  /**
    `add`: advance the version; an empty map gets its first node as head; a
    key below the current head's key gets a new head; otherwise the walk.
    The result keeps the invariant and extends the arena at the new version.
   */
  function AddSpec(s: MapState, key: int, value: int): (r: MapState)
    requires ValidState(s)
    ensures ValidState(r) && r.version == s.version + 1
    ensures Extends(s.nodes, r.nodes, r.version)
  {
    var ver := s.version + 1;
    LogsUpToLater(s.nodes, s.version, ver);
    var r := (
      if s.head == map[] then
        // A node without successor: linking it is appending it.
        var first := Node(key, value, None, None, [], []);
        ExtendsByLinking(s.nodes, first, ver);
        MapState(Link(s.nodes, first), s.head[ver := |s.nodes|], ver)
      else
        HeadAtNextVersion(s);
        var h := HeadAt(s.head, ver);
        assert NodeWf(s.nodes[h], |s.nodes|);
        if key < s.nodes[h].key then
          var newHead := Node(key, value, Some(h), None, [], []);
          ExtendsByLinking(s.nodes, newHead, ver);
          MapState(Link(s.nodes, newHead), s.head[ver := |s.nodes|], ver)
        else
          AddWalkPreserves(s.nodes, Some(h), key, value, ver, |s.nodes|);
          MapState(AddWalk(s.nodes, Some(h), key, value, ver, |s.nodes|), s.head, ver));
    ExtendsKeepsLogsUpTo(s.nodes, r.nodes, ver);
    assert r.head != map[] by {
      if s.head == map[] { assert ver in r.head; } else { assert 1 in r.head; }
    }
    r
  }

  /** A sequence of `add` calls, in order. */
  function AddAll(s: MapState, ops: seq<(int, int)>): (r: MapState)
    requires ValidState(s)
    ensures ValidState(r) && r.version == s.version + |ops|
    decreases |ops|
  {
    if ops == [] then s
    else
      AddAll(AddSpec(s, ops[0].0, ops[0].1), ops[1..])
  }

  lemma InsertPreserves(ns: seq<Node>, c: nat, next: Option<nat>, key: int, value: int, ver: nat)
    requires Wf(ns) && c < |ns| && InRange(next, |ns|)
    ensures Extends(ns, Insert(ns, c, next, key, value, ver), ver)
    ensures WithinCapacity(ns) ==> WithinCapacity(Insert(ns, c, next, key, value, ver))
  {
    var nn := Node(key, value, next, Some(c), [], []);
    var ns2 := Link(ns, nn);
    ExtendsByLinking(ns, nn, ver);
    UpdateNextPreserves(ns2, c, Some(|ns|), ver, |ns2|);
    ExtendsTrans(ns, ns2, Insert(ns, c, next, key, value, ver), ver);
  }

  /**
    The insertion links `new node(key, value, next, c)` after a node `c`
    that is not full: the new node is appended, `next` points back at it,
    and `c` points at it from `ver` on and at its old successor before.
   */
  lemma InsertLinks(ns: seq<Node>, c: nat, next: Option<nat>, key: int, value: int, ver: nat)
    requires Wf(ns) && c < |ns| && InRange(next, |ns|) && LogsUpTo(ns, ver) && !Full(ns[c])
    ensures var r := Insert(ns, c, next, key, value, ver);
            |r| == |ns| + 1 && r[|ns|] == Node(key, value, next, Some(c), [], []) &&
            (next.Some? ==> r[next.value].back == Some(|ns|)) &&
            NextAt(r[c], ver) == Some(|ns|) &&
            (forall w: nat :: w < ver ==> NextAt(r[c], w) == NextAt(ns[c], w)) &&
            forall j :: 0 <= j < |ns| && j != c && next != Some(j) ==> r[j] == ns[j]
  {
    var nn := Node(key, value, next, Some(c), [], []);
    var ns2 := Link(ns, nn);
    ExtendsByLinking(ns, nn, ver);
    ExtendsKeepsLogsUpTo(ns, ns2, ver);
    assert ns2[c].(back := ns[c].back) == ns[c];
    var r := Insert(ns, c, next, key, value, ver);
    UpdateNextInPlace(ns2, c, Some(|ns|), ver, |ns2|, ver);
    forall w: nat | w < ver ensures NextAt(r[c], w) == NextAt(ns[c], w) {
      UpdateNextInPlace(ns2, c, Some(|ns|), ver, |ns2|, w);
    }
  }

  /** The loop of `add` extends the arena at `ver` and keeps the capacity bound. */
  lemma {:induction false} AddWalkPreserves(ns: seq<Node>, p: Option<nat>, key: int, value: int, ver: nat, fuel: nat)
    requires Wf(ns) && InRange(p, |ns|)
    ensures Extends(ns, AddWalk(ns, p, key, value, ver, fuel), ver)
    ensures WithinCapacity(ns) ==> WithinCapacity(AddWalk(ns, p, key, value, ver, fuel))
    decreases fuel
  {
    if p.None? || fuel == 0 {
      ExtendsRefl(ns, ver);
    } else {
      var c := p.value;
      if ns[c].key == key {
        UpdateValPreserves(ns, c, value, ver);
      } else {
        var next := Successor(ns, c, ver);
        var ns' := if next.None? || (key > ns[c].key && key < ns[next.value].key)
                   then Insert(ns, c, next, key, value, ver)
                   else ns;
        if next.None? || (key > ns[c].key && key < ns[next.value].key) {
          InsertPreserves(ns, c, next, key, value, ver);
        } else {
          ExtendsRefl(ns, ver);
        }
        AddWalkPreserves(ns', next, key, value, ver, fuel - 1);
        ExtendsTrans(ns, ns', AddWalk(ns', next, key, value, ver, fuel - 1), ver);
      }
    }
  }

  /**
    Each `add` advances the version by exactly one; it writes the head index
    only at the new version, and exactly when the map was empty or the key
    sorts before the key of the head of the current version.
   */
  lemma AddHeadIndex(s: MapState, key: int, value: int)
    requires ValidState(s)
    ensures AddSpec(s, key, value).version == s.version + 1
    ensures forall w :: w in s.head ==> w in AddSpec(s, key, value).head && AddSpec(s, key, value).head[w] == s.head[w]
    ensures forall w :: w in AddSpec(s, key, value).head && w != s.version + 1 ==> w in s.head
    ensures s.version + 1 in AddSpec(s, key, value).head <==>
            (s.head == map[] || key < s.nodes[HeadAt(s.head, s.version + 1)].key)
  {
    assert s.head != map[] ==> HasHeadAtMost(s.head, s.version + 1) by {
      if s.head != map[] { assert 1 in s.head; }
    }
  }

  /**
    When the key sorts before the current head's key, the new node, which
    points at the old head and has no predecessor, becomes the head of the
    new version, and the old head's back pointer is set to it.
   */
  lemma AddNewHead(s: MapState, key: int, value: int)
    requires ValidState(s) && s.head != map[]
    requires key < s.nodes[HeadAt(s.head, s.version)].key
    ensures var r := AddSpec(s, key, value);
            var h := HeadAt(s.head, s.version);
            r.head[r.version] == |s.nodes| &&
            r.nodes[|s.nodes|] == Node(key, value, Some(h), None, [], []) &&
            r.nodes[h] == s.nodes[h].(back := Some(|s.nodes|))
  {
    HeadAtNextVersion(s);
  }

  /** A search whose key is held by the head of its version returns that head's value. */
  lemma SearchHitsHead(r: MapState, key: int, v: nat)
    requires ValidState(r) && HasHeadAtMost(r.head, v)
    requires r.nodes[HeadAt(r.head, v)].key == key
    ensures SearchSpec(r, key, v) == ValueAt(r.nodes[HeadAt(r.head, v)], v)
  {
    assert |r.nodes| > 0;
  }

  /** A fresh node recorded as the head of the current version is what search finds under its key. */
  lemma FreshHeadFound(r: MapState, key: int, value: int, n: nat)
    requires ValidState(r) && r.version in r.head && r.head[r.version] == n
    requires n < |r.nodes| && r.nodes[n].key == key && r.nodes[n].value == value && r.nodes[n].modVal == []
    ensures HasHeadAtMost(r.head, r.version) && SearchSpec(r, key, r.version) == value
  {
    assert Floor(r.head, r.version) == r.version;
    SearchHitsHead(r, key, r.version);
  }

  /** The first add to an empty map: the new version finds the value under its key. */
  lemma AddToEmptyVisible(s: MapState, key: int, value: int)
    requires ValidState(s) && s.head == map[]
    ensures HasHeadAtMost(AddSpec(s, key, value).head, s.version + 1)
    ensures SearchSpec(AddSpec(s, key, value), key, s.version + 1) == value
  {
    AddHeadIndex(s, key, value);
    var r := AddSpec(s, key, value);
    assert r.nodes == Link(s.nodes, Node(key, value, None, None, [], []));
    assert r.head[r.version] == |s.nodes|;
    FreshHeadFound(r, key, value, |s.nodes|);
  }

  /** An add that makes a new head: the new version finds the value under its key. */
  lemma NewHeadVisible(s: MapState, key: int, value: int)
    requires ValidState(s) && s.head != map[]
    requires key < s.nodes[HeadAt(s.head, s.version)].key
    ensures HasHeadAtMost(AddSpec(s, key, value).head, s.version + 1)
    ensures SearchSpec(AddSpec(s, key, value), key, s.version + 1) == value
  {
    AddNewHead(s, key, value);
    FreshHeadFound(AddSpec(s, key, value), key, value, |s.nodes|);
  }

  /**
    An add of the key held by the head of the current version, when that
    node is not full: the value is pushed in place and the new version finds it.
   */
  lemma HeadInPlaceVisible(s: MapState, key: int, value: int)
    requires ValidState(s) && s.head != map[]
    requires s.nodes[HeadAt(s.head, s.version)].key == key
    requires !Full(s.nodes[HeadAt(s.head, s.version)])
    ensures HasHeadAtMost(AddSpec(s, key, value).head, s.version + 1)
    ensures SearchSpec(AddSpec(s, key, value), key, s.version + 1) == value
  {
    HeadAtNextVersion(s);
    var ver := s.version + 1;
    var h := HeadAt(s.head, s.version);
    LogsUpToLater(s.nodes, s.version, ver);
    UpdateValInPlace(s.nodes, h, value, ver, ver);
    var r := AddSpec(s, key, value);
    var ns := UpdateValSpec(s.nodes, h, value, ver);
    assert AddWalk(s.nodes, Some(h), key, value, ver, |s.nodes|) == ns;
    assert r == MapState(ns, s.head, ver);
    assert HeadAt(r.head, ver) == h;
    SearchHitsHead(r, key, ver);
  }

  /** The head index has no entry newer than the current version. */
  lemma HeadAtNextVersion(s: MapState)
    requires ValidState(s) && s.head != map[]
    ensures HasHeadAtMost(s.head, s.version) && HasHeadAtMost(s.head, s.version + 1)
    ensures HeadAt(s.head, s.version + 1) == HeadAt(s.head, s.version)
  {
    assert 1 in s.head;
    assert s.version + 1 !in s.head;
  }

  /** Two head indices that agree up to version `v` give the same head at `v`. */
  lemma {:induction false} FloorAgree(h1: map<nat, nat>, h2: map<nat, nat>, v: nat)
    requires HasHeadAtMost(h1, v)
    requires forall u :: u <= v ==> (u in h1 <==> u in h2)
    requires forall u :: u in h1 && u <= v ==> h2[u] == h1[u]
    ensures HasHeadAtMost(h2, v) && Floor(h2, v) == Floor(h1, v) && HeadAt(h2, v) == HeadAt(h1, v)
    decreases v
  {
    var w :| w in h1 && w <= v;
    assert w in h2;
    if v !in h1 {
      FloorAgree(h1, h2, v - 1);
    }
  }

  /** Arena `b` seen at version `w2` looks, node for node, like arena `a` seen at `w1`. */
  ghost predicate SameView(a: seq<Node>, w1: nat, b: seq<Node>, w2: nat)
  {
    |a| <= |b| &&
    forall i :: 0 <= i < |a| ==>
      b[i].key == a[i].key && ValueAt(b[i], w2) == ValueAt(a[i], w1) && NextAt(b[i], w2) == NextAt(a[i], w1)
  }

  lemma {:induction false} SearchFromAgree(a: seq<Node>, w1: nat, b: seq<Node>, w2: nat,
                                            p: Option<nat>, key: int, fuel: nat)
    requires Wf(a) && Wf(b) && SameView(a, w1, b, w2) && InRange(p, |a|)
    ensures SearchFrom(b, p, key, w2, fuel) == SearchFrom(a, p, key, w1, fuel)
    decreases fuel
  {
    if p.Some? && fuel > 0 && a[p.value].key != key {
      SearchFromAgree(a, w1, b, w2, Successor(a, p.value, w1), key, fuel - 1);
    }
  }

  /** The nodes below `size` point, at version `w`, only at nodes below `size`. */
  ghost predicate Closed(ns: seq<Node>, size: nat, w: nat)
  {
    size <= |ns| && forall i :: 0 <= i < size ==> InRange(NextAt(ns[i], w), size)
  }

  /** The node reached from `p` after `t` steps along the chain at version `w`. */
  function Walk(ns: seq<Node>, p: Option<nat>, w: nat, t: nat): (q: Option<nat>)
    requires Wf(ns) && InRange(p, |ns|)
    ensures InRange(q, |ns|)
    decreases t
  {
    if t == 0 || p.None? then p else Walk(ns, Successor(ns, p.value, w), w, t - 1)
  }

  lemma {:induction false} WalkSplit(ns: seq<Node>, p: Option<nat>, w: nat, m: nat, n: nat)
    requires Wf(ns) && InRange(p, |ns|)
    ensures Walk(ns, p, w, m + n) == Walk(ns, Walk(ns, p, w, m), w, n)
    decreases m
  {
    if m > 0 && p.Some? {
      WalkSplit(ns, Successor(ns, p.value, w), w, m - 1, n);
    } else if p.None? {
      WalkOfNone(ns, w, n);
      WalkOfNone(ns, w, m + n);
    }
  }

  lemma {:induction false} WalkOfNone(ns: seq<Node>, w: nat, t: nat)
    requires Wf(ns)
    ensures Walk(ns, None, w, t) == None
  {
  }

  lemma {:induction false} WalkClosed(ns: seq<Node>, size: nat, p: Option<nat>, w: nat, t: nat)
    requires Wf(ns) && Closed(ns, size, w) && InRange(p, size)
    ensures InRange(Walk(ns, p, w, t), size)
    decreases t
  {
    if t > 0 && p.Some? {
      WalkClosed(ns, size, Successor(ns, p.value, w), w, t - 1);
    }
  }

  /** Once the walk revisits a node it repeats the steps between the two visits. */
  lemma {:induction false} WalkPeriodic(ns: seq<Node>, p: Option<nat>, w: nat, a: nat, b: nat, f: nat)
    returns (r: nat)
    requires Wf(ns) && InRange(p, |ns|)
    requires a < b && a <= f && Walk(ns, p, w, a) == Walk(ns, p, w, b)
    ensures a <= r < b && Walk(ns, p, w, f) == Walk(ns, p, w, r)
    decreases f
  {
    if f < b {
      r := f;
    } else {
      WalkSplit(ns, p, w, b, f - b);
      WalkSplit(ns, p, w, a, f - b);
      assert Walk(ns, p, w, f) == Walk(ns, p, w, a + (f - b));
      r := WalkPeriodic(ns, p, w, a, b, a + (f - b));
    }
  }

  /** The first `n` steps of the walk all reach a node, and none of them is keyed `key`. */
  ghost predicate NoStop(ns: seq<Node>, p: Option<nat>, key: int, w: nat, n: nat)
    requires Wf(ns) && InRange(p, |ns|)
  {
    forall t :: 0 <= t < n ==>
      Walk(ns, p, w, t).Some? && ns[Walk(ns, p, w, t).value].key != key
  }

  lemma {:induction false} SearchStopped(ns: seq<Node>, p: Option<nat>, key: int, w: nat, f: nat)
    requires Wf(ns) && InRange(p, |ns|) && !NoStop(ns, p, key, w, f)
    ensures SearchFrom(ns, p, key, w, f + 1) == SearchFrom(ns, p, key, w, f)
    decreases f
  {
    var t :| 0 <= t < f && !(Walk(ns, p, w, t).Some? && ns[Walk(ns, p, w, t).value].key != key);
    if p.Some? && ns[p.value].key != key {
      var succ := Successor(ns, p.value, w);
      assert t > 0;
      assert Walk(ns, succ, w, t - 1) == Walk(ns, p, w, t);
      SearchStopped(ns, succ, key, w, f - 1);
    }
  }

  lemma {:induction false} SearchUnstopped(ns: seq<Node>, p: Option<nat>, key: int, w: nat, f: nat)
    requires Wf(ns) && InRange(p, |ns|) && NoStop(ns, p, key, w, f)
    ensures SearchFrom(ns, p, key, w, f) == 0
    ensures SearchFrom(ns, p, key, w, f + 1) == SearchFrom(ns, Walk(ns, p, w, f), key, w, 1)
    decreases f
  {
    if f > 0 {
      assert Walk(ns, p, w, 0) == p;
      var succ := Successor(ns, p.value, w);
      forall t | 0 <= t < f - 1
        ensures Walk(ns, succ, w, t).Some? && ns[Walk(ns, succ, w, t).value].key != key
      {
        assert Walk(ns, p, w, t + 1) == Walk(ns, succ, w, t);
      }
      assert Walk(ns, p, w, f) == Walk(ns, succ, w, f - 1);
      SearchUnstopped(ns, succ, key, w, f - 1);
    }
  }

  /** n + 1 or more values below `n` contain a repetition. */
  lemma {:induction false} Pigeonhole(s: seq<nat>, n: nat) returns (a: nat, b: nat)
    requires |s| > n && forall i :: 0 <= i < |s| ==> s[i] < n
    ensures a < b < |s| && s[a] == s[b]
    decreases n
  {
    var last := |s| - 1;
    assert s[0] < n;
    if exists i :: 0 <= i < last && s[i] == s[last] {
      a :| 0 <= a < last && s[a] == s[last];
      b := last;
    } else {
      // Rename the value n - 1 to s[last], which occurs nowhere else.
      var t := seq(last, i requires 0 <= i < last => if s[i] == n - 1 then s[last] else s[i]);
      forall i | 0 <= i < last ensures t[i] < n - 1 {
        assert s[i] != s[last];
      }
      a, b := Pigeonhole(t, n - 1);
      assert s[a] != s[last] && s[b] != s[last];
    }
  }

  /**
    On nodes closed under the chain at version `w`, a walk that has taken as
    many steps as there are such nodes without stopping can never stop: one
    more step of fuel does not change the search.
   */
  lemma ExtraFuel(ns: seq<Node>, size: nat, p: Option<nat>, key: int, w: nat, f: nat)
    requires Wf(ns) && Closed(ns, size, w) && InRange(p, size) && f >= size
    ensures SearchFrom(ns, p, key, w, f + 1) == SearchFrom(ns, p, key, w, f)
  {
    if !NoStop(ns, p, key, w, f) {
      SearchStopped(ns, p, key, w, f);
    } else {
      SearchUnstopped(ns, p, key, w, f);
      var q := Walk(ns, p, w, f);
      if q.Some? {
        var s := seq(size + 1, t requires 0 <= t <= size => if Walk(ns, p, w, t).Some? then Walk(ns, p, w, t).value else 0);
        forall t | 0 <= t < |s| ensures s[t] < size && Walk(ns, p, w, t) == Some(s[t]) {
          WalkClosed(ns, size, p, w, t);
        }
        var a, b := Pigeonhole(s, size);
        var r := WalkPeriodic(ns, p, w, a, b, f);
        assert Walk(ns, p, w, r).Some? && ns[Walk(ns, p, w, r).value].key != key;
        assert SearchFrom(ns, q, key, w, 1) == SearchFrom(ns, Successor(ns, q.value, w), key, w, 0);
      }
    }
  }

  /** Fuel beyond the number of nodes closed under the chain never changes a search. */
  lemma {:induction false} SearchFuelSuffices(ns: seq<Node>, size: nat, p: Option<nat>, key: int, w: nat, f: nat)
    requires Wf(ns) && Closed(ns, size, w) && InRange(p, size) && f >= size
    ensures SearchFrom(ns, p, key, w, f) == SearchFrom(ns, p, key, w, size)
    decreases f
  {
    if f > size {
      ExtraFuel(ns, size, p, key, w, f - 1);
      SearchFuelSuffices(ns, size, p, key, w, f - 1);
    }
  }

  /**
    Historical immutability: an `add` changes no search at any version that
    already existed before it.
   */
  lemma AddKeepsHistory(s: MapState, key: int, value: int, k: int, w: nat)
    requires ValidState(s) && 1 <= w <= s.version
    ensures HasHeadAtMost(s.head, w) && HasHeadAtMost(AddSpec(s, key, value).head, w)
    ensures SearchSpec(AddSpec(s, key, value), k, w) == SearchSpec(s, k, w)
  {
    var r := AddSpec(s, key, value);
    var ver := s.version + 1;
    assert 1 in s.head;
    AddHeadIndex(s, key, value);
    FloorAgree(s.head, r.head, w);
    var h := HeadAt(s.head, w);
    forall i | 0 <= i < |s.nodes|
      ensures r.nodes[i].key == s.nodes[i].key && ValueAt(r.nodes[i], w) == ValueAt(s.nodes[i], w)
      ensures NextAt(r.nodes[i], w) == NextAt(s.nodes[i], w) && InRange(NextAt(s.nodes[i], w), |s.nodes|)
    {
      ExtendsFreezesPast(s.nodes, r.nodes, ver, i, w);
      assert InRange(Successor(s.nodes, i, w), |s.nodes|);
    }
    assert Closed(r.nodes, |s.nodes|, w);
    SearchFuelSuffices(r.nodes, |s.nodes|, Some(h), k, w, |r.nodes|);
    SearchFromAgree(s.nodes, w, r.nodes, w, Some(h), k, |s.nodes|);
  }

  /** After any further sequence of adds, every search at an existing version is unchanged. */
  lemma {:induction false} AddAllKeepsHistory(s: MapState, ops: seq<(int, int)>, k: int, w: nat)
    requires ValidState(s) && 1 <= w <= s.version
    ensures HasHeadAtMost(s.head, w) && HasHeadAtMost(AddAll(s, ops).head, w)
    ensures SearchSpec(AddAll(s, ops), k, w) == SearchSpec(s, k, w)
    decreases |ops|
  {
    assert 1 in s.head;
    if ops != [] {
      var s' := AddSpec(s, ops[0].0, ops[0].1);
      AddKeepsHistory(s, ops[0].0, ops[0].1, k, w);
      AddAllKeepsHistory(s', ops[1..], k, w);
    }
  }

  /**
    The rebuilt head is dropped: when the head of the current version holds
    `key`, is full and has no predecessor, `add(key, value)` builds a copy
    that nothing points at and records no new head, so every search at the
    new version returns what it returned at the previous version.
   */
  lemma AddToFullHeadIsLost(s: MapState, key: int, value: int, k: int)
    requires ValidState(s) && s.head != map[]
    requires HasHeadAtMost(s.head, s.version)
    requires s.nodes[HeadAt(s.head, s.version)].key == key
    requires Full(s.nodes[HeadAt(s.head, s.version)])
    requires s.nodes[HeadAt(s.head, s.version)].back.None?
    ensures HasHeadAtMost(AddSpec(s, key, value).head, s.version + 1)
    ensures SearchSpec(AddSpec(s, key, value), k, s.version + 1) == SearchSpec(s, k, s.version)
  {
    var r := AddSpec(s, key, value);
    var ver := s.version + 1;
    HeadAtNextVersion(s);
    var h := HeadAt(s.head, s.version);
    assert r.head == s.head;
    assert r.nodes == UpdateValSpec(s.nodes, h, value, ver);
    UpdateValOrphan(s.nodes, h, value, ver);
    forall i | 0 <= i < |s.nodes|
      ensures r.nodes[i].key == s.nodes[i].key && ValueAt(r.nodes[i], ver) == ValueAt(s.nodes[i], s.version)
      ensures NextAt(r.nodes[i], ver) == NextAt(s.nodes[i], s.version)
      ensures InRange(NextAt(s.nodes[i], s.version), |s.nodes|)
    {
      var n := s.nodes[i];
      assert r.nodes[i].(back := n.back) == n;
      assert LogUpTo(n.modVal, s.version) && LogUpTo(n.modNext, s.version);
      ProjectCurrent(n.value, n.modVal, s.version);
      ProjectCurrent(n.value, n.modVal, ver);
      ProjectCurrent(n.next, n.modNext, s.version);
      ProjectCurrent(n.next, n.modNext, ver);
      assert InRange(Successor(s.nodes, i, s.version), |s.nodes|);
    }
    assert Closed(r.nodes, |s.nodes|, ver);
    SearchFuelSuffices(r.nodes, |s.nodes|, Some(h), k, ver, |r.nodes|);
    SearchFromAgree(s.nodes, s.version, r.nodes, ver, Some(h), k, |s.nodes|);
  }
}
