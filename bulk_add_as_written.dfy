/** The bulk merge of the current skip list (`BulkAdd`) as it is written, one
    loop iteration per step.

    The merge keeps a single cursor `current` for both "the last old node
    visited" and, once an old node has been moved, "a node of the new chain":
    after `tempCurrent = next; current = next`, appending a new node rewrites
    `current`'s own entry, so the walk over the old chain continues into the new
    chain and finally links the last node to itself.  `SkipLists.SkipList.BulkAdd`
    is the corrected merge used by the rest of the model. */
module BulkAddAsWritten {
  import opened Items
  import opened SkipLists

  /** The merge's variables: the arena, `current`, `tempCurrent`, the index of
      the next item, and whether the `foreach` has finished (the draining loop
      is running). */
  datatype Config = Config(nodes: seq<Node>, current: nat, temp: nat, i: nat, draining: bool)

  /** Still looping, both loops done, or a null entry dereferenced. */
  datatype Status = Running(config: Config) | Finished(config: Config) | Crashed

  /** Every entry of the arena names a node of the arena. */
  predicate Closed(nodes: seq<Node>) {
    forall x :: 0 <= x < |nodes| && nodes[x].forward.To? ==> nodes[x].forward.at < |nodes|
  }

  /** The cursors are nodes of a closed arena and the item index is in range. */
  predicate Fits(items: seq<Item>, c: Config) {
    c.current < |c.nodes| && c.temp < |c.nodes| && c.i <= |items| && Closed(c.nodes)
  }

  /** The variables on entry: a fresh head `|nodes|` appended to the arena,
      `current` at the old head and `tempCurrent` at the new one. */
  function Init(nodes: seq<Node>, head: nat): (c: Config)
    ensures |c.nodes| == |nodes| + 1 && c.nodes[..|nodes|] == nodes
    ensures c.current == head && c.temp == |nodes| && c.nodes[c.temp].forward == Absent
    ensures c.i == 0 && !c.draining
  {
    Config(nodes + [Node(Sentinel, Absent)], head, |nodes|, 0, false)
  }

  /** `tempCurrent.Forward[0] = n; tempCurrent = n; current = n`. */
  function Move(c: Config, n: nat): (r: Config)
    requires c.temp < |c.nodes|
    ensures |r.nodes| == |c.nodes|
    ensures r.nodes == c.nodes[c.temp := c.nodes[c.temp].(forward := To(n))]
    ensures r.current == n && r.temp == n && r.i == c.i && r.draining == c.draining
  {
    c.(nodes := c.nodes[c.temp := c.nodes[c.temp].(forward := To(n))], temp := n, current := n)
  }

  /** One iteration of either loop, or the exit from the `foreach`.  An entry
      holding null is dereferenced (`next.Value` in the inner loop; in the
      draining loop the null is copied into `tempCurrent` and dereferenced on
      the next test), which throws. */
  function Step(items: seq<Item>, c: Config): (r: Status)
    requires Fits(items, c)
    ensures r.Running? ==> Fits(items, r.config)
    ensures r.Finished? ==> c.draining && c.nodes[c.current].forward.Absent? && r.config == c
    ensures r == Crashed ==> c.nodes[c.current].forward.Null?
  {
    var next := c.nodes[c.current].forward;
    if c.draining then
      match next
      case Absent => Finished(c)
      case Null => Crashed
      case To(n) => Running(Move(c, n))
    else if c.i == |items| then Running(c.(draining := true))
    else if next.Null? then Crashed
    else if next.To? && Less(c.nodes[next.at].value, items[c.i]) then Running(Move(c, next.at))
    else
      var m := |c.nodes|;
      var nodes' := c.nodes[c.temp := c.nodes[c.temp].(forward := To(m))] + [Node(items[c.i], Absent)];
      Running(c.(nodes := nodes', temp := m, i := c.i + 1))
  }

  /** The status after at most `fuel` iterations. */
  function Run(items: seq<Item>, c: Config, fuel: nat): (r: Status)
    requires Fits(items, c)
    ensures r.Running? ==> Fits(items, r.config)
    decreases fuel
  {
    if fuel == 0 then Running(c)
    else
      match Step(items, c)
      case Running(c') => Run(items, c', fuel - 1)
      case other => other
  }

  /** Once the draining loop stands on a node linked to itself, every iteration
      relinks it to itself: the loop never exits. */
  lemma {:induction false} SelfLinkNeverFinishes(items: seq<Item>, c: Config, fuel: nat)
    requires Fits(items, c)
    requires c.draining && c.current == c.temp && c.nodes[c.current].forward == To(c.current)
    ensures Run(items, c, fuel) == Running(c)
    decreases fuel
  {
    if fuel > 0 {
      assert c.nodes[c.temp := c.nodes[c.temp].(forward := To(c.current))] == c.nodes;
      assert Step(items, c) == Running(c);
      SelfLinkNeverFinishes(items, c, fuel - 1);
    }
  }

  /** The old chain: the head, then one node holding key 1. */
  const OldNodes := [Node(Sentinel, To(1)), Node(Item(1, ""), Absent)]

  /** One incoming item with key 2. */
  const NewItems := [Item(2, "")]

  /** Adding key 2 to a list holding key 1 never returns: after moving the old
      node and appending the new one, the draining loop links the new node to
      itself and spins forever, while the corrected merge yields `[1, 2]`. */
  lemma DivergesOnLargerItem()
    ensures Linked(OldNodes, 0, [1]) && Values(OldNodes, [1]) == [Item(1, "")]
    ensures forall fuel: nat :: Run(NewItems, Init(OldNodes, 0), fuel).Running?
    ensures Merge(Values(OldNodes, [1]), NewItems) == [Item(1, ""), Item(2, "")]
  {
    assert ([0] + [1])[0] == 0 && ([0] + [1])[1] == 1;
    var c0 := Init(OldNodes, 0);
    var c1 := Move(c0, 1);
    assert Step(NewItems, c0) == Running(c1);
    var c2 := c1.(nodes := c1.nodes[1 := c1.nodes[1].(forward := To(3))] + [Node(Item(2, ""), Absent)], temp := 3, i := 1);
    assert Step(NewItems, c1) == Running(c2);
    var c3 := c2.(draining := true);
    assert Step(NewItems, c2) == Running(c3);
    var c4 := Move(c3, 3);
    assert Step(NewItems, c3) == Running(c4);
    assert c4.nodes[3].forward == To(3);
    forall fuel: nat ensures Run(NewItems, c0, fuel).Running? {
      if fuel >= 4 {
        SelfLinkNeverFinishes(NewItems, c4, fuel - 4);
        assert Run(NewItems, c0, fuel) == Run(NewItems, c1, fuel - 1) == Run(NewItems, c2, fuel - 2)
            == Run(NewItems, c3, fuel - 3) == Run(NewItems, c4, fuel - 4);
      } else if fuel == 3 {
        assert Run(NewItems, c0, fuel) == Run(NewItems, c3, 0);
      } else if fuel == 2 {
        assert Run(NewItems, c0, fuel) == Run(NewItems, c2, 0);
      } else if fuel == 1 {
        assert Run(NewItems, c0, fuel) == Run(NewItems, c1, 0);
      }
    }
  }

  /** What `Add(1); Add(2); Remove(2)` leaves: the head, then the node holding
      key 1, whose entry `Remove` set to null. */
  const DanglingNodes := [Node(Sentinel, To(1)), Node(Item(1, ""), Null)]

  /** `AddRange([])` on that list throws: the draining loop moves the node
      holding key 1, copies its null entry into `current` and dereferences it,
      before the new head is installed. */
  lemma CrashesOnDanglingList()
    ensures Linked(DanglingNodes, 0, [1]) && DanglingIn(DanglingNodes, 0, [1])
    ensures forall fuel: nat :: fuel >= 3 ==> Run([], Init(DanglingNodes, 0), fuel) == Crashed
  {
    assert ([0] + [1])[0] == 0 && ([0] + [1])[1] == 1;
    var c0 := Init(DanglingNodes, 0);
    var c1 := c0.(draining := true);
    assert Step([], c0) == Running(c1);
    var c2 := Move(c1, 1);
    assert Step([], c1) == Running(c2);
    assert Step([], c2) == Crashed;
    forall fuel: nat | fuel >= 3 ensures Run([], c0, fuel) == Crashed {
      assert Run([], c0, fuel) == Run([], c1, fuel - 1) == Run([], c2, fuel - 2);
    }
  }
}
