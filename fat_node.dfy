/**
  A "fat node" of the partially persistent list: a key, base value and base
  successor fixed when the node is built, a back pointer to its predecessor,
  and two append-only modification logs that record from which version on a
  field took a new value. Pointers are indices into the node arena of the map.
 */
module FatNode {

  datatype Option<T> = None | Some(value: T)

  /** One log entry: the field holds `newVal` from `version` on. */
  datatype Mod<T> = Mod(newVal: T, version: nat)

  /** Combined capacity of the value log and the next log of one node. */
  const CAPACITY: nat := 2

  datatype Node = Node(
    key: int,
    value: int,
    next: Option<nat>,
    back: Option<nat>,
    modVal: seq<Mod<int>>,
    modNext: seq<Mod<Option<nat>>>)

  /** Length of the leading run of entries whose version is at most `v`. */
  function LeadingRun<T>(log: seq<Mod<T>>, v: nat): (j: nat)
    ensures j <= |log|
    ensures forall i :: 0 <= i < j ==> log[i].version <= v
    ensures j < |log| ==> log[j].version > v
  {
    if log == [] || log[0].version > v then 0 else 1 + LeadingRun(log[1..], v)
  }

  /**
    A field as of version `v`: the base value, overwritten by each entry of
    the log in turn until the first entry newer than `v`.
   */
  function Project<T>(base: T, log: seq<Mod<T>>, v: nat): T
  {
    var j := LeadingRun(log, v);
    if j == 0 then base else log[j - 1].newVal
  }

  /** A read at `v` gives the base field or a value logged at a version at most `v`. */
  lemma ProjectLogged<T>(base: T, log: seq<Mod<T>>, v: nat)
    ensures Project(base, log, v) == base ||
            exists k :: 0 <= k < |log| && log[k].version <= v && Project(base, log, v) == log[k].newVal
  {
    var j := LeadingRun(log, v);
    if j > 0 {
      assert log[j - 1].version <= v;
    }
  }

  /** A field with every entry of its log applied. */
  function Latest<T>(base: T, log: seq<Mod<T>>): T
  {
    if log == [] then base else log[|log| - 1].newVal
  }

  /** The value as of version `v`. */
  function ValueAt(n: Node, v: nat): int
  {
    Project(n.value, n.modVal, v)
  }

  /** The successor as of version `v`. */
  function NextAt(n: Node, v: nat): Option<nat>
  {
    Project(n.next, n.modNext, v)
  }

  /** Both logs together hold CAPACITY entries; a node within capacity that is not full has room for one more. */
  predicate Full(n: Node)
    ensures !Full(n) && |n.modVal| + |n.modNext| <= CAPACITY ==> |n.modVal| + |n.modNext| + 1 <= CAPACITY
  {
    |n.modVal| + |n.modNext| == CAPACITY
  }

  /**
    The copy built from a full node: logs folded into the base fields. It has
    the key and back pointer of `n`, empty logs, and reads the fully applied
    fields of `n` at every version.
   */
  function Flatten(n: Node): (c: Node)
    ensures c.key == n.key && c.back == n.back && c.modVal == [] && c.modNext == []
    ensures forall w: nat :: ValueAt(c, w) == Latest(n.value, n.modVal) && NextAt(c, w) == Latest(n.next, n.modNext)
  {
    Node(n.key, Latest(n.value, n.modVal), Latest(n.next, n.modNext), n.back, [], [])
  }

  /** Every entry is at most `ver`, and versions never decrease along the log. */
  ghost predicate LogUpTo<T>(log: seq<Mod<T>>, ver: nat)
  {
    (forall i :: 0 <= i < |log| ==> log[i].version <= ver) &&
    (forall i, k :: 0 <= i < k < |log| ==> log[i].version <= log[k].version)
  }

  /** The characterisation of LeadingRun determines it. */
  lemma LeadingRunUnique<T>(log: seq<Mod<T>>, v: nat, j: nat)
    requires j <= |log|
    requires forall i :: 0 <= i < j ==> log[i].version <= v
    requires j < |log| ==> log[j].version > v
    ensures LeadingRun(log, v) == j
  {
  }

  /**
    On a log whose versions never decrease, the projection is the base value
    when every entry is newer than `v`, and otherwise the value of the last
    entry whose version is at most `v`.
   */
  lemma ProjectSorted<T>(base: T, log: seq<Mod<T>>, v: nat, i: nat)
    requires forall a, b :: 0 <= a < b < |log| ==> log[a].version <= log[b].version
    ensures (forall k :: 0 <= k < |log| ==> log[k].version > v) ==> Project(base, log, v) == base
    ensures i < |log| && log[i].version <= v && (i + 1 == |log| || log[i + 1].version > v)
            ==> Project(base, log, v) == log[i].newVal
  {
    if i < |log| && log[i].version <= v && (i + 1 == |log| || log[i + 1].version > v) {
      LeadingRunUnique(log, v, i + 1);
    }
    if forall k :: 0 <= k < |log| ==> log[k].version > v {
      LeadingRunUnique(log, v, 0);
    }
  }

  /** Entries newer than `v` appended to a log do not change the projection at `v`. */
  lemma ProjectNewerSuffix<T>(base: T, log: seq<Mod<T>>, suffix: seq<Mod<T>>, v: nat)
    requires forall k :: 0 <= k < |suffix| ==> suffix[k].version > v
    ensures Project(base, log + suffix, v) == Project(base, log, v)
  {
    var j := LeadingRun(log, v);
    var whole := log + suffix;
    assert forall i :: 0 <= i < j ==> whole[i] == log[i];
    if j < |log| {
      assert whole[j] == log[j];
    } else if suffix != [] {
      assert whole[j] == suffix[0];
    }
    LeadingRunUnique(whole, v, j);
  }

  /** When no entry is newer than `v`, the projection at `v` is the fully applied field. */
  lemma ProjectCurrent<T>(base: T, log: seq<Mod<T>>, v: nat)
    requires forall k :: 0 <= k < |log| ==> log[k].version <= v
    ensures Project(base, log, v) == Latest(base, log)
  {
    LeadingRunUnique(log, v, |log|);
  }

  /**
    An entry pushed at `ver` onto a log whose entries are all at most `ver`
    is what every version from `ver` on sees.
   */
  lemma ProjectPushed<T>(base: T, log: seq<Mod<T>>, x: T, ver: nat, v: nat)
    requires forall k :: 0 <= k < |log| ==> log[k].version <= ver
    requires ver <= v
    ensures Project(base, log + [Mod(x, ver)], v) == x
  {
    var whole := log + [Mod(x, ver)];
    assert forall k :: 0 <= k < |whole| ==> whole[k].version <= v by {
      forall k | 0 <= k < |whole| ensures whole[k].version <= v {
        if k < |log| { assert whole[k] == log[k]; }
      }
    }
    ProjectCurrent(base, whole, v);
  }

  /**
    The copy built by Flatten keeps the key and the back pointer, has empty
    logs, and holds at every version what the original holds at any version
    `v` no older than its log entries: it is a snapshot of the current state.
   */
  lemma FlattenIsSnapshot(n: Node, v: nat, w: nat)
    requires LogUpTo(n.modVal, v) && LogUpTo(n.modNext, v)
    ensures Flatten(n).key == n.key && Flatten(n).back == n.back
    ensures Flatten(n).modVal == [] && Flatten(n).modNext == []
    ensures ValueAt(Flatten(n), w) == ValueAt(n, v)
    ensures NextAt(Flatten(n), w) == NextAt(n, v)
  {
    ProjectCurrent(n.value, n.modVal, v);
    ProjectCurrent(n.next, n.modNext, v);
  }

  /** Replays `log` over `base` up to version `v`, as the node's getters do. */
  method Replay<T>(base: T, log: seq<Mod<T>>, v: nat) returns (r: T)
    ensures r == Project(base, log, v)
  {
    r := base;
    var i := 0;
    while i < |log| && log[i].version <= v
      invariant i <= |log|
      invariant forall k :: 0 <= k < i ==> log[k].version <= v
      invariant r == if i == 0 then base else log[i - 1].newVal
    {
      r := log[i].newVal;
      i := i + 1;
    }
    LeadingRunUnique(log, v, i);
  }

  method GetValue(n: Node, v: nat) returns (r: int)
    ensures r == ValueAt(n, v)
  {
    r := Replay(n.value, n.modVal, v);
  }

  method GetNext(n: Node, v: nat) returns (r: Option<nat>)
    ensures r == NextAt(n, v)
  {
    r := Replay(n.next, n.modNext, v);
  }

  /** Builds the copy of a node with both logs folded into its base fields. */
  method MakeNew(n: Node) returns (r: Node)
    ensures r == Flatten(n)
  {
    r := Node(n.key, n.value, n.next, n.back, [], []);
    for k := 0 to |n.modVal|
      invariant r == Node(n.key, Latest(n.value, n.modVal[..k]), n.next, n.back, [], [])
    {
      r := r.(value := n.modVal[k].newVal);
      assert n.modVal[..k + 1] == n.modVal[..k] + [n.modVal[k]];
    }
    assert n.modVal[..|n.modVal|] == n.modVal;
    for k := 0 to |n.modNext|
      invariant r == Node(n.key, Latest(n.value, n.modVal), Latest(n.next, n.modNext[..k]), n.back, [], [])
    {
      r := r.(next := n.modNext[k].newVal);
      assert n.modNext[..k + 1] == n.modNext[..k] + [n.modNext[k]];
    }
    assert n.modNext[..|n.modNext|] == n.modNext;
  }
}
