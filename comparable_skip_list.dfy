/** The skip list without duplicate keys (`SkipLists/ComparableSkipList.cs`).

    A `ComparableSkipList` is a `SkipList` whose `Add` refuses a value that is
    already present and which can overwrite stored values in place.  The base
    object is the `list` field: every inherited operation is the base list's. */
module ComparableSkipLists {
  import opened Items
  import opened SkipLists

  /** No two stored elements share a key. */
  predicate UniqueKeys(s: seq<Item>) {
    forall i, j :: 0 <= i < j < |s| ==> s[i].id != s[j].id
  }

  /** Inserting a key that is absent keeps the keys unique. */
  lemma InsertAbsentKeepsUnique(s: seq<Item>, k: nat, v: Item)
    requires UniqueKeys(s) && k <= |s| && !HasKey(s, v)
    ensures UniqueKeys(InsertAt(s, k, v))
  {
    var t := InsertAt(s, k, v);
    forall i, j | 0 <= i < j < |t| ensures t[i].id != t[j].id {
      if i == k {
        assert t[j] == s[j - 1];
      } else if j == k {
        assert t[i] == s[i];
      } else {
        assert t[i] == s[if i < k then i else i - 1];
        assert t[j] == s[if j < k then j else j - 1];
      }
    }
  }

  /** Rewriting node values leaves the links, hence the chain, as they were. */
  lemma RelabelKeepsLinked(nodes: seq<Node>, nodes': seq<Node>, head: nat, spine: seq<nat>)
    requires Linked(nodes, head, spine) && |nodes'| == |nodes|
    requires forall x :: 0 <= x < |nodes| ==> nodes'[x].forward == nodes[x].forward
    ensures Linked(nodes', head, spine)
    ensures DanglingIn(nodes', head, spine) == DanglingIn(nodes, head, spine)
  {
    var path := [head] + spine;
    assert forall i :: 0 <= i < |path| ==> path[i] < |nodes|;
  }

  /** The overwrite loop of `Update`: from `start`, the node at position `k` (the
      descent's stopping point), every node whose value `Equals` `v` gets `v`,
      until the first that does not.  Only values change. */
  method OverwriteRun(nodes: seq<Node>, ghost spine: seq<nat>, start: Option<nat>, ghost k: nat, v: Item)
    returns (nodes': seq<Node>, found: bool)
    requires Walk(nodes, spine) && Distinct(spine)
    requires Sorted(Values(nodes, spine)) && k == Ceiling(Values(nodes, spine), v)
    requires start == if k < |spine| then Some(spine[k]) else None
    ensures |nodes'| == |nodes|
    ensures forall x :: 0 <= x < |nodes| ==> nodes'[x].forward == nodes[x].forward
    ensures InArena(nodes', spine) && Values(nodes', spine) == ReplaceEqual(Values(nodes, spine), v)
    ensures found == HasKey(Values(nodes, spine), v)
    ensures !found ==> nodes' == nodes
  {
    ValuesIndex(nodes, spine);
    ghost var C := Values(nodes, spine);
    ghost var j;
    nodes', found, j := OverwriteLoop(nodes, spine, C, start, k, v);
    RelabelFacts(nodes, spine, k, j, v);
    assert found <==> k < |spine| && Equal(C[k], v) by {
      if j == k && k < |spine| {
        assert nodes'[spine[k]].value == C[k];
      }
    }
    ReplacedRun(nodes', spine, C, v, k, j);
    CeilingDecidesMembership(C, v);
  }

  /** The arena after the values at positions `lo` to `hi` of `spine` have
      been set to `v`, one position at a time. */
  ghost function Relabel(nodes: seq<Node>, spine: seq<nat>, lo: nat, hi: nat, v: Item): (r: seq<Node>)
    requires InArena(nodes, spine) && lo <= hi <= |spine|
    ensures |r| == |nodes|
    decreases hi
  {
    if hi == lo then nodes
    else
      var r := Relabel(nodes, spine, lo, hi - 1, v);
      r[spine[hi - 1] := r[spine[hi - 1]].(value := v)]
  }

  /** One node of a relabelled spine: overwritten inside the range, untouched
      outside it. */
  lemma {:induction false} RelabelAt(nodes: seq<Node>, spine: seq<nat>, lo: nat, hi: nat, v: Item, q: nat)
    requires InArena(nodes, spine) && Distinct(spine) && lo <= hi <= |spine| && q < |spine|
    ensures Relabel(nodes, spine, lo, hi, v)[spine[q]] ==
            if lo <= q < hi then nodes[spine[q]].(value := v) else nodes[spine[q]]
    decreases hi
  {
    if hi > lo {
      RelabelAt(nodes, spine, lo, hi - 1, v, q);
      if q != hi - 1 {
        assert spine[q] != spine[hi - 1];
      }
    }
  }

  /** Relabelling changes no entry, and exactly the values in the range. */
  lemma {:induction false} RelabelFacts(nodes: seq<Node>, spine: seq<nat>, lo: nat, hi: nat, v: Item)
    requires InArena(nodes, spine) && Distinct(spine) && lo <= hi <= |spine|
    ensures forall x :: 0 <= x < |nodes| ==> Relabel(nodes, spine, lo, hi, v)[x].forward == nodes[x].forward
    ensures forall q :: 0 <= q < |spine| ==>
              Relabel(nodes, spine, lo, hi, v)[spine[q]].value == if lo <= q < hi then v else nodes[spine[q]].value
    decreases hi
  {
    forall q | 0 <= q < |spine|
      ensures Relabel(nodes, spine, lo, hi, v)[spine[q]].value == if lo <= q < hi then v else nodes[spine[q]].value
    {
      RelabelAt(nodes, spine, lo, hi, v, q);
    }
    if hi > lo {
      RelabelFacts(nodes, spine, lo, hi - 1, v);
    }
  }

  /** The loop itself: it stops at the first position `j` from `k` on whose
      value does not `Equals` `v`, having overwritten positions `k` to `j`. */
  method OverwriteLoop(nodes: seq<Node>, ghost spine: seq<nat>, ghost C: seq<Item>, start: Option<nat>, ghost k: nat, v: Item)
    returns (nodes': seq<Node>, found: bool, ghost j: nat)
    requires Walk(nodes, spine) && Distinct(spine) && k <= |spine| == |C|
    requires forall q {:trigger nodes[spine[q]]} :: 0 <= q < |spine| ==> nodes[spine[q]].value == C[q]
    requires start == if k < |spine| then Some(spine[k]) else None
    ensures k <= j <= |spine| && found == (j > k)
    ensures nodes' == Relabel(nodes, spine, k, j, v)
    ensures forall q :: k <= q < j ==> Equal(C[q], v)
    ensures j < |spine| ==> !Equal(C[j], v)
  {
    nodes' := nodes;
    found := false;
    var current := start;
    j := k;
    while current.Some? && Equal(nodes'[current.value].value, v)
      invariant k <= j <= |spine|
      invariant current == if j < |spine| then Some(spine[j]) else None
      invariant nodes' == Relabel(nodes, spine, k, j, v)
      invariant forall q :: k <= q < j ==> Equal(C[q], v)
      invariant found == (j > k)
      decreases |spine| - j
    {
      var n := current.value;
      RelabelAt(nodes, spine, k, j, v, j);
      assert Successor(nodes[spine[j]].forward) == NextOf(spine, j);
      nodes' := nodes'[n := nodes'[n].(value := v)];
      found := true;
      current := Successor(nodes'[n].forward);
      j := j + 1;
    }
    if j < |spine| {
      RelabelAt(nodes, spine, k, j, v, j);
    }
  }

  /** After the overwrite loop stopped at position `j`, the values are
      `ReplaceEqual(C, v)`: the matches of `v` in a sorted `C` are exactly the
      positions from `k` (the ceiling) up to `j`. */
  lemma ReplacedRun(nodes': seq<Node>, spine: seq<nat>, C: seq<Item>, v: Item, k: nat, j: nat)
    requires InArena(nodes', spine) && |C| == |spine| && Sorted(C) && k == Ceiling(C, v) && k <= j <= |spine|
    requires forall q :: 0 <= q < |spine| ==> nodes'[spine[q]].value == if k <= q < j then v else C[q]
    requires forall q :: k <= q < j ==> Equal(C[q], v)
    requires j < |spine| ==> !Equal(C[j], v)
    ensures Values(nodes', spine) == ReplaceEqual(C, v)
  {
    ValuesIndex(nodes', spine);
    var R := ReplaceEqual(C, v);
    forall q | 0 <= q < |spine| ensures Values(nodes', spine)[q] == R[q] {
      if q >= j {
        CeilingSplits(C, v, j);
        assert C[j].id <= C[q].id;
      }
    }
  }

  /** Stores an arena that differs from the list's only in node values, which
      are the list's with the elements that `Equals` `v` overwritten: the
      chain, its end and `Count` stay as they were. */
  method Overwrite(list: SkipList, arena: seq<Node>, ghost v: Item)
    requires list.Valid() && |arena| == |list.nodes|
    requires forall x :: 0 <= x < |arena| ==> arena[x].forward == list.nodes[x].forward
    requires InArena(arena, list.spine) && Values(arena, list.spine) == ReplaceEqual(list.Contents(), v)
    modifies list
    ensures list.Valid() && list.nodes == arena
    ensures list.Contents() == ReplaceEqual(old(list.Contents()), v)
    ensures list.head == old(list.head) && list.spine == old(list.spine)
    ensures list.count == old(list.count) && list.maxLevel == old(list.maxLevel)
    ensures list.Dangling() == old(list.Dangling())
  {
    RelabelKeepsLinked(list.nodes, arena, list.head, list.spine);
    ReplaceEqualKeepsKeys(list.Contents(), v);
    list.nodes := arena;
  }

  class ComparableSkipList {
    /** The `SkipList<T>` part of the object. */
    const list: SkipList

    ghost predicate Valid()
      reads this, list
    {
      list.Valid()
    }

    constructor ()
      ensures Valid() && list.IsFresh() && fresh(list)
    {
      list := new SkipList();
    }

    /** `ComparableSkipList(IEnumerable<T> collection) : base(collection)`: bulk
        loading, which does not check for duplicates. */
    constructor FromCollection(collection: seq<Item>)
      ensures Valid() && fresh(list)
      ensures list.Contents() == SortItems(collection) && list.count == |collection|
    {
      list := new SkipList.FromCollection(collection);
    }

    /** `Add(T value)`: a value whose key is present is refused with
        `InvalidOperationException`; otherwise the base `Add`. */
    method Add(value: Option<Item>) returns (r: Outcome)
      requires Valid()
      modifies list
      ensures Valid()
      ensures value.None? ==> r == Throw(ArgumentNull) && unchanged(list)
      ensures value.Some? && old(list.Crashes(value.value)) ==> r == Throw(NullReference) && unchanged(list)
      ensures value.Some? && !old(list.Crashes(value.value)) && old(HasKey(list.Contents(), value.value)) ==>
                r == Throw(InvalidOperation) && unchanged(list)
      ensures value.Some? && !old(list.Crashes(value.value)) && !old(HasKey(list.Contents(), value.value)) ==>
                r == Pass &&
                list.Contents() == InsertAt(old(list.Contents()), Ceiling(old(list.Contents()), value.value), value.value) &&
                list.count == old(list.count) + 1
      ensures list.Dangling() == old(list.Dangling())
      ensures r == Pass && old(UniqueKeys(list.Contents())) ==> UniqueKeys(list.Contents())
    {
      if value.None? {
        return Throw(ArgumentNull);
      }
      var present := list.Contains(value);
      if present.Fail? {
        return Throw(present.error);
      }
      if present.value {
        return Throw(InvalidOperation);
      }
      ghost var oldC := list.Contents();
      r := list.Add(value);
      if UniqueKeys(oldC) {
        InsertAbsentKeepsUnique(oldC, Ceiling(oldC, value.value), value.value);
      }
    }

    /** `Update(T newValue)`: descend to the first node not less than
        `newValue`, then overwrite the value of every node from there on that
        `Equals` it.  Returns whether any was overwritten; keys, links and
        `Count` do not change. */
    method Update(newValue: Option<Item>) returns (r: Result<bool>)
      requires Valid()
      modifies list
      ensures Valid()
      ensures newValue.None? ==> r == Fail(ArgumentNull) && unchanged(list)
      ensures newValue.Some? && old(list.Crashes(newValue.value)) ==> r == Fail(NullReference) && unchanged(list)
      ensures newValue.Some? && !old(list.Crashes(newValue.value)) ==>
                r == Ok(old(HasKey(list.Contents(), newValue.value))) &&
                list.Contents() == ReplaceEqual(old(list.Contents()), newValue.value) &&
                list.count == old(list.count) &&
                list.Dangling() == old(list.Dangling())
      ensures r == Ok(false) ==> unchanged(list)
      ensures list.head == old(list.head) && list.spine == old(list.spine) && |list.nodes| == old(|list.nodes|)
      ensures forall x :: 0 <= x < |list.nodes| ==> list.nodes[x].forward == old(list.nodes[x].forward)
    {
      if newValue.None? {
        return Fail(ArgumentNull);
      }
      var v := newValue.value;
      var pred, k := list.Descend(v);
      if pred.Fail? {
        return Fail(pred.error);
      }
      var start := Successor(list.nodes[pred.value].forward);
      LinkedWalk(list.nodes, list.head, list.spine);
      var nodes', found := OverwriteRun(list.nodes, list.spine, start, k, v);
      if found {
        Overwrite(list, nodes', v);
      }
      r := Ok(found);
    }
  }
}
