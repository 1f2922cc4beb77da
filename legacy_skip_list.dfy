/** The first skip list revision (`AdvancedDataStructures.Lookups/SkipList.cs`).

    The node arena, links and chain predicates are those of the current
    revision.  `RandomLevel` is the same `Math.Min(level, MaxLevel)`, so this
    list too never links above level 0.  The differences are in the
    operations:
    - no operation ever stores a null entry, so the chain always ends in an
      absent entry;
    - `Remove` does not decrement `Count`, so `Count` is only an upper bound
      on the number of stored elements;
    - `Remove` reads the removed node's level-0 entry with the dictionary
      indexer, which throws `KeyNotFoundException` when that node is the
      last one;
    - `Find` returns the first element not less than the probe without
      checking that it `Equals` the probe. */
module LegacySkipLists {
  import opened Items
  import opened SkipLists

  /** The elements after adding `items` one at a time, each in front of the
      first element not less than it: what the collection constructor builds. */
  function AddEach(s: seq<Item>, items: seq<Item>): (r: seq<Item>)
    decreases |items|
  {
    if items == [] then s
    else AddEach(InsertAt(s, Ceiling(s, items[0]), items[0]), items[1..])
  }

  /** Adding items one by one to a sorted sequence keeps it sorted and adds
      exactly those items. */
  lemma {:induction false} AddEachSortedPermutation(s: seq<Item>, items: seq<Item>)
    requires Sorted(s)
    ensures Sorted(AddEach(s, items))
    ensures multiset(AddEach(s, items)) == multiset(s) + multiset(items)
    ensures |AddEach(s, items)| == |s| + |items|
    decreases |items|
  {
    if items != [] {
      var t := InsertAt(s, Ceiling(s, items[0]), items[0]);
      InsertAtCeiling(s, items[0]);
      InsertAtCounts(s, Ceiling(s, items[0]), items[0]);
      AddEachSortedPermutation(t, items[1..]);
      assert items == [items[0]] + items[1..];
    }
  }

  /** The level-0 descent shared by `Add`, `Contains`, `Find` and `Remove`:
      from the head, advance while the next node's value is less than `v`.
      Stops at the last node whose value is less than `v` (or the head),
      which is position `k` of the path, `k` being the ceiling of `v`. */
  method Descend(nodes: seq<Node>, head: nat, ghost spine: seq<nat>, v: Item) returns (p: nat, ghost k: nat)
    requires WellFormed(nodes, head, spine)
    ensures k == Ceiling(Values(nodes, spine), v)
    ensures p < |nodes| && p == ([head] + spine)[k]
    ensures Successor(nodes[p].forward) == if k < |spine| then Some(spine[k]) else None
    ensures k < |spine| ==> spine[k] < |nodes| && nodes[spine[k]].value == Values(nodes, spine)[k]
  {
    LinkedSteps(nodes, head, spine);
    ValuesIndex(nodes, spine);
    ghost var path, C := [head] + spine, Values(nodes, spine);
    p := head;
    k := 0;
    while true
      invariant 0 <= k <= |spine| && p == path[k]
      invariant forall j :: 0 <= j < k ==> Less(C[j], v)
      decreases |spine| - k
    {
      var next := nodes[p].forward;
      if !next.To? {
        assert k == |spine|;
        break;
      }
      assert path[k + 1] == spine[k];
      assert next.at == spine[k] && C[k] == nodes[next.at].value;
      if !Less(nodes[next.at].value, v) {
        break;
      }
      p := next.at;
      k := k + 1;
    }
    CeilingUnique(C, v, k);
    if k == |spine| {
      assert p == LastOf(head, spine);
    }
  }

  class SkipList {
    var nodes: seq<Node>
    var head: nat
    var maxLevel: int
    /** `_count`: raised by `Add`, never lowered by `Remove`. */
    var count: int
    ghost var spine: seq<nat>

    /** A sorted level-0 chain ending in an absent entry, with `Count` at
        least its length. */
    ghost predicate Valid()
      reads this
    {
      maxLevel == 0 && WellFormed(nodes, head, spine) && !DanglingIn(nodes, head, spine) &&
      count >= |spine|
    }

    /** The level-0 sequence, in chain order. */
    ghost function Contents(): seq<Item>
      requires InArena(nodes, spine)
      reads this
    {
      Values(nodes, spine)
    }

    ghost predicate IsFresh()
      reads this
    {
      nodes == [Node(Sentinel, Absent)] && head == 0 && maxLevel == 0 && count == 0 && spine == []
    }

    constructor ()
      ensures Valid() && IsFresh() && Contents() == []
    {
      nodes, head, maxLevel, count := [Node(Sentinel, Absent)], 0, 0, 0;
      spine := [];
    }

    /** `SkipList(IEnumerable<T> collection)`: a null collection is refused
        with `ArgumentNullException`; otherwise `Add` for each item in turn. */
    static method FromCollection(collection: Option<seq<Item>>) returns (r: Result<SkipList>)
      ensures collection.None? ==> r == Fail(ArgumentNull)
      ensures collection.Some? ==>
                r.Ok? && fresh(r.value) && r.value.Valid() &&
                r.value.Contents() == AddEach([], collection.value) &&
                r.value.count == |collection.value|
      ensures r.Ok? ==>
                Sorted(r.value.Contents()) && multiset(r.value.Contents()) == multiset(collection.value)
    {
      if collection.None? {
        return Fail(ArgumentNull);
      }
      var items := collection.value;
      var list := new SkipList();
      for i := 0 to |items|
        invariant fresh(list) && list.Valid()
        invariant AddEach(list.Contents(), items[i..]) == AddEach([], items)
        invariant list.count == i
      {
        assert items[i..][0] == items[i] && items[i..][1..] == items[i + 1..];
        var outcome := list.Add(Some(items[i]));
      }
      assert items[|items|..] == [];
      AddEachSortedPermutation([], items);
      r := Ok(list);
    }

    /** `Add(T value)`: a null value is refused with `ArgumentNullException`;
        otherwise a new node goes in front of the first node not less than
        `value`, duplicates included, and `Count` goes up by one. */
    method Add(value: Option<Item>) returns (r: Outcome)
      requires Valid()
      modifies this
      ensures Valid()
      ensures value.None? ==> r == Throw(ArgumentNull) && unchanged(this)
      ensures value.Some? ==>
                r == Pass &&
                Contents() == InsertAt(old(Contents()), Ceiling(old(Contents()), value.value), value.value) &&
                count == old(count) + 1
    {
      if value.None? {
        return Throw(ArgumentNull);
      }
      var v := value.value;
      var p, k := Descend(nodes, head, spine, v);
      var heads: nat :| true;
      var level := RandomLevel(heads, maxLevel);
      // level <= MaxLevel == 0: MaxLevel is not raised and the new node is
      // spliced in at level 0 only.
      assert level == 0;
      InsertAtCeiling(Contents(), v);
      nodes, spine := LinkAfter(nodes, head, spine, p, k, v);
      count := count + 1;
      r := Pass;
    }

    /** `Clear()`: a fresh head, `MaxLevel` 0 and `Count` 0. */
    method Clear()
      modifies this
      ensures Valid() && IsFresh() && Contents() == []
    {
      nodes, head, maxLevel, count := [Node(Sentinel, Absent)], 0, 0, 0;
      spine := [];
    }

    /** `Contains(T value)`: the first node not less than `value` `Equals` it. */
    method Contains(value: Option<Item>) returns (r: Result<bool>)
      requires Valid()
      ensures value.None? ==> r == Fail(ArgumentNull)
      ensures value.Some? ==> r == Ok(HasKey(Contents(), value.value))
    {
      if value.None? {
        return Fail(ArgumentNull);
      }
      var v := value.value;
      var p, k := Descend(nodes, head, spine, v);
      var candidate := Successor(nodes[p].forward);
      CeilingDecidesMembership(Contents(), v);
      r := Ok(candidate.Some? && Equal(nodes[candidate.value].value, v));
    }

    /** `CopyTo(T[] array, int arrayIndex)`: the bounds checks of the current
        revision, against `Count`, then the chain in order from `arrayIndex`
        on.  The checks compare with `Count`, which is at least the number of
        elements, so the copy always fits. */
    method CopyTo(target: array?<Item>, arrayIndex: int) returns (r: Outcome)
      requires Valid()
      modifies target
      ensures target == null ==> r == Throw(ArgumentNull)
      ensures target != null && (arrayIndex < 0 || arrayIndex >= target.Length) ==>
                r == Throw(ArgumentOutOfRange) && unchanged(target)
      ensures target != null && 0 <= arrayIndex < target.Length && target.Length - arrayIndex < count ==>
                r == Throw(Argument) && unchanged(target)
      ensures target != null && 0 <= arrayIndex < target.Length && target.Length - arrayIndex >= count ==>
                r == Pass &&
                target[..] == old(target[..arrayIndex]) + Contents() + old(target[arrayIndex + |Contents()|..])
    {
      if target == null {
        return Throw(ArgumentNull);
      }
      if arrayIndex < 0 || arrayIndex >= target.Length {
        return Throw(ArgumentOutOfRange);
      }
      if target.Length - arrayIndex < count {
        return Throw(Argument);
      }
      CopyChain(nodes, head, spine, target, arrayIndex);
      r := Pass;
    }

    /** `Find(T value)`: the first element not less than `value`, whether or
        not it `Equals` `value`; `KeyNotFoundException` only when every
        element is less. */
    method Find(value: Option<Item>) returns (r: Result<Item>)
      requires Valid()
      ensures value.None? ==> r == Fail(ArgumentNull)
      ensures value.Some? ==>
                var C, k := Contents(), Ceiling(Contents(), value.value);
                (k == |C| ==> r == Fail(KeyNotFound)) &&
                (k < |C| ==> r == Ok(C[k]) && !Less(C[k], value.value) &&
                             (Equal(C[k], value.value) <==> HasKey(C, value.value)))
    {
      if value.None? {
        return Fail(ArgumentNull);
      }
      var v := value.value;
      var p, k := Descend(nodes, head, spine, v);
      var candidate := Successor(nodes[p].forward);
      CeilingDecidesMembership(Contents(), v);
      if candidate.None? {
        return Fail(KeyNotFound);
      }
      r := Ok(nodes[candidate.value].value);
    }

    /** `FindOrDefault(T value, T defaultValue)`: `Find`, with
        `KeyNotFoundException` turned into the default. */
    method FindOrDefault(value: Option<Item>, defaultValue: Option<Item>) returns (r: Result<Option<Item>>)
      requires Valid()
      ensures value.None? ==> r == Fail(ArgumentNull)
      ensures value.Some? ==>
                var C, k := Contents(), Ceiling(Contents(), value.value);
                r == Ok(if k < |C| then Some(C[k]) else defaultValue)
    {
      if value.None? {
        return Fail(ArgumentNull);
      }
      var found := Find(value);
      match found {
        case Ok(x) => r := Ok(Some(x));
        case Fail(e) => r := if e == KeyNotFound then Ok(defaultValue) else Fail(e);
      }
    }

    /** `Remove(T value)`: when the first node not less than `value` `Equals`
        it, that node's predecessor takes over its level-0 entry.  The entry
        is read with the dictionary indexer, so removing the last node throws
        `KeyNotFoundException` before anything changes.  `Count` is left as
        it was. */
    method Remove(value: Option<Item>) returns (r: Result<bool>)
      requires Valid()
      modifies this
      ensures Valid()
      ensures value.None? ==> r == Fail(ArgumentNull) && unchanged(this)
      ensures value.Some? ==>
                var C, k := old(Contents()), Ceiling(old(Contents()), value.value);
                (!HasKey(C, value.value) ==> r == Ok(false) && unchanged(this)) &&
                (HasKey(C, value.value) && k == |C| - 1 ==> r == Fail(KeyNotFound) && unchanged(this)) &&
                (HasKey(C, value.value) && k < |C| - 1 ==>
                   r == Ok(true) && Contents() == RemoveAt(C, k) && count == old(count))
    {
      if value.None? {
        return Fail(ArgumentNull);
      }
      var v := value.value;
      var p, k := Descend(nodes, head, spine, v);
      var candidate := Successor(nodes[p].forward);
      CeilingDecidesMembership(Contents(), v);
      if candidate.None? || !Equal(nodes[candidate.value].value, v) {
        return Ok(false);
      }
      var n := candidate.value;
      // The removed node's own entry: the next node, or absent for the last.
      LinkedSuccessors(nodes, head, spine);
      if !nodes[n].forward.To? {
        return Fail(KeyNotFound);
      }
      nodes, spine := Unlink(nodes, head, spine, p, n, k);
      r := Ok(true);
    }

    /** `GetEnumerator()`: the values along level 0, from the head to the
        first absent entry. */
    method Enumerate() returns (s: seq<Item>)
      requires Valid()
      ensures s == Contents()
      ensures Sorted(s) && |s| <= count
    {
      LinkedSuccessors(nodes, head, spine);
      ValuesIndex(nodes, spine);
      ghost var C := Contents();
      var current := Successor(nodes[head].forward);
      ghost var j := 0;
      s := [];
      while current.Some?
        invariant 0 <= j <= |spine| && s == C[..j]
        invariant current == if j < |spine| then Some(spine[j]) else None
        decreases |spine| - j
      {
        s := s + [nodes[current.value].value];
        current := Successor(nodes[current.value].forward);
        j := j + 1;
      }
    }
  }
}
