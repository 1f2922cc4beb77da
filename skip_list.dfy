/** The current skip list (`SkipLists/SkipList.cs`).

    Nodes live in an arena owned by the list: `nodes[i]` is the node with handle
    `i`, and a node's `Forward` dictionary is represented by its level-0 entry, a
    `Link`.  `MaxLevel` starts at 0 and `RandomLevel` never returns more than
    `MaxLevel`, so no node is ever linked above level 0 and the level-0 chain is
    the whole structure.  The ghost `spine` lists the handles of that chain in
    order; `Contents()` is the sequence of their values. */
module SkipLists {
  import opened Items

  /** The level-0 entry of a `Forward` dictionary: no entry at all, an entry
      holding null (what `Remove` writes when it unlinks the last node), or a
      node handle. */
  datatype Link = Absent | Null | To(at: nat)

  datatype Node = Node(value: Item, forward: Link)

  /** `Forward.GetValueOrDefault(0)`: the successor, or null. */
  function Successor(l: Link): (r: Option<nat>)
    ensures r.Some? <==> l.To?
    ensures r.Some? ==> r.value == l.at
  {
    if l.To? then Some(l.at) else None
  }

  /** The value of a head node (`default!`); traversals never read it. */
  const Sentinel := Item(0, "")

  /** `Math.Min(level, MaxLevel)` where `level` is 1 plus the number of coin flips
      that came up below the probability. */
  function RandomLevel(heads: nat, maxLevel: int): (level: int)
    ensures level <= maxLevel && level <= 1 + heads
    ensures level == maxLevel || level == 1 + heads
  {
    if 1 + heads < maxLevel then 1 + heads else maxLevel
  }

  // ---------------------------------------------------------------------------
  // Chains of handles in an arena

  ghost predicate InArena(nodes: seq<Node>, path: seq<nat>) {
    forall i :: 0 <= i < |path| ==> path[i] < |nodes|
  }

  ghost predicate Distinct(path: seq<nat>) {
    forall i, j :: 0 <= i < j < |path| ==> path[i] != path[j]
  }

  /** `path` is a non-empty run of distinct nodes, each linked to the next. */
  ghost predicate Chain(nodes: seq<Node>, path: seq<nat>) {
    |path| >= 1 && InArena(nodes, path) && Distinct(path) &&
    forall i {:trigger nodes[path[i]]} :: 0 <= i < |path| - 1 ==> nodes[path[i]].forward == To(path[i + 1])
  }

  /** The values stored at the handles of `spine`, in order. */
  ghost function Values(nodes: seq<Node>, spine: seq<nat>): (r: seq<Item>)
    requires InArena(nodes, spine)
    ensures |r| == |spine|
  {
    if spine == [] then [] else [nodes[spine[0]].value] + Values(nodes, spine[1..])
  }

  lemma {:induction false} ValuesIndex(nodes: seq<Node>, spine: seq<nat>)
    requires InArena(nodes, spine)
    ensures forall j :: 0 <= j < |spine| ==> Values(nodes, spine)[j] == nodes[spine[j]].value
  {
    if spine != [] {
      ValuesIndex(nodes, spine[1..]);
      forall j | 1 <= j < |spine| ensures Values(nodes, spine)[j] == nodes[spine[j]].value {
        assert spine[1..][j - 1] == spine[j];
      }
    }
  }

  lemma ValuesSnoc(nodes: seq<Node>, s: seq<nat>, x: nat)
    requires InArena(nodes, s) && x < |nodes|
    ensures InArena(nodes, s + [x])
    ensures Values(nodes, s + [x]) == Values(nodes, s) + [nodes[x].value]
  {
    ValuesIndex(nodes, s);
    ValuesIndex(nodes, s + [x]);
  }

  /** Values depend only on the values stored at the handles. */
  lemma ValuesFrame(a: seq<Node>, b: seq<Node>, s: seq<nat>)
    requires InArena(a, s) && |a| <= |b|
    requires forall x :: 0 <= x < |a| ==> b[x].value == a[x].value
    ensures InArena(b, s) && Values(b, s) == Values(a, s)
  {
    ValuesIndex(a, s);
    ValuesIndex(b, s);
  }

  /** The last node of the chain `[head] + spine`. */
  ghost function LastOf(head: nat, spine: seq<nat>): nat {
    if spine == [] then head else spine[|spine| - 1]
  }

  /** A level-0 chain from `head` through `spine`, ending in an absent entry or
      (once something follows the head) a null one. */
  ghost predicate Linked(nodes: seq<Node>, head: nat, spine: seq<nat>) {
    Chain(nodes, [head] + spine) &&
    InArena(nodes, spine) &&
    LastOf(head, spine) < |nodes| &&
    (nodes[LastOf(head, spine)].forward == Absent ||
     (spine != [] && nodes[LastOf(head, spine)].forward == Null))
  }

  /** A linked level-0 chain whose values are in order. */
  ghost predicate WellFormed(nodes: seq<Node>, head: nat, spine: seq<nat>) {
    Linked(nodes, head, spine) && Sorted(Values(nodes, spine))
  }

  ghost predicate DanglingIn(nodes: seq<Node>, head: nat, spine: seq<nat>)
    requires Linked(nodes, head, spine)
  {
    spine != [] && nodes[LastOf(head, spine)].forward == Null
  }

  class SkipList {
    var nodes: seq<Node>
    var head: nat
    var maxLevel: int
    var count: int
    ghost var spine: seq<nat>

    ghost function Path(): seq<nat>
      reads this
    {
      [head] + spine
    }

    /** The last node of the level-0 chain (the head when the list is empty). */
    ghost function Tail(): nat
      reads this
    {
      LastOf(head, spine)
    }

    ghost predicate Valid()
      reads this
    {
      maxLevel == 0 && count == |spine| && WellFormed(nodes, head, spine)
    }

    /** The level-0 sequence, in chain order. */
    ghost function Contents(): seq<Item>
      requires InArena(nodes, spine)
      reads this
    {
      Values(nodes, spine)
    }

    /** The last node holds an explicit null entry: `Remove` unlinked the node
        that used to follow it. */
    ghost predicate Dangling()
      requires Valid()
      reads this
    {
      DanglingIn(nodes, head, spine)
    }

    /** A descent towards `v` reaches the dangling last node and dereferences its
        null entry: every stored element is less than `v`. */
    ghost predicate Crashes(v: Item): (r: bool)
      requires Valid()
      reads this
      ensures r <==> Dangling() && forall x :: x in Contents() ==> Less(x, v)
    {
      Dangling() && Ceiling(Contents(), v) == |spine|
    }

    ghost predicate IsFresh()
      reads this
    {
      nodes == [Node(Sentinel, Absent)] && head == 0 && maxLevel == 0 && count == 0 && spine == []
    }

    /** A fresh list is a valid empty list. */
    lemma FreshIsEmpty()
      requires IsFresh()
      ensures Valid() && Contents() == [] && count == 0 && !Dangling()
    {
    }

    /** The level-0 links of a valid list, spelled out along the spine. */
    lemma Links()
      requires Valid()
      ensures head < |nodes| && Tail() < |nodes|
      ensures forall k :: 0 <= k < |spine| ==> spine[k] < |nodes|
      ensures forall k {:trigger nodes[spine[k]]} :: 0 <= k < |spine| - 1 ==> nodes[spine[k]].forward == To(spine[k + 1])
      ensures Successor(nodes[head].forward) == if spine == [] then None else Some(spine[0])
      ensures !nodes[Tail()].forward.To?
    {
      LinkedSteps(nodes, head, spine);
    }

    constructor ()
      ensures Valid() && IsFresh()
    {
      nodes, head, maxLevel, count := [Node(Sentinel, Absent)], 0, 0, 0;
      spine := [];
    }

    /** `SkipList(IEnumerable<T> collection)`: bulk loading into the empty list. */
    constructor FromCollection(collection: seq<Item>)
      ensures Valid()
      ensures Contents() == SortItems(collection)
      ensures count == |collection|
    {
      nodes, head, maxLevel, count := [Node(Sentinel, Absent)], 0, 0, 0;
      spine := [];
      new;
      var r := AddRange(Some(collection));
    }

    /** The search descent shared by every lookup: advance while the next node's
        value is less than `v`.  Returns the predecessor handle (the last node whose
        value is less than `v`, or the head), or fails where the descent reads
        the value of a null entry. */
    method Descend(v: Item) returns (r: Result<nat>, ghost k: nat)
      requires Valid()
      ensures k == Ceiling(Contents(), v)
      ensures r.Ok? <==> !Crashes(v)
      ensures r.Ok? ==> r.value == Path()[k]
      ensures r.Fail? ==> r.error == NullReference
      ensures r.Ok? ==> r.value < |nodes| &&
                        Successor(nodes[r.value].forward) == if k < |spine| then Some(spine[k]) else None
      ensures k < |spine| ==> spine[k] < |nodes| && nodes[spine[k]].value == Contents()[k]
    {
      Links();
      ValuesIndex(nodes, spine);
      ghost var C := Contents();
      var current := head;
      k := 0;
      while true
        invariant 0 <= k <= |spine| && current == Path()[k]
        invariant forall j :: 0 <= j < k ==> Less(C[j], v)
        decreases |spine| - k
      {
        var next := nodes[current].forward;
        if !next.To? {
          assert k == |spine|;
          break;
        }
        assert Path()[k + 1] == spine[k];
        assert next.at == spine[k] && C[k] == nodes[next.at].value;
        if !Less(nodes[next.at].value, v) {
          break;
        }
        current := next.at;
        k := k + 1;
      }
      CeilingUnique(C, v, k);
      if nodes[current].forward.Null? {
        r := Fail(NullReference);
      } else {
        r := Ok(current);
      }
    }

    /** `Add(T value)`: splice a new node in front of the first node whose value is
        not less than `value`; duplicates are kept and counted. */
    method Add(value: Option<Item>) returns (r: Outcome)
      requires Valid()
      modifies this
      ensures Valid()
      ensures value.None? ==> r == Throw(ArgumentNull) && unchanged(this)
      ensures value.Some? && old(Crashes(value.value)) ==>
                r == Throw(NullReference) && unchanged(this)
      ensures value.Some? && !old(Crashes(value.value)) ==>
                r == Pass &&
                Contents() == InsertAt(old(Contents()), Ceiling(old(Contents()), value.value), value.value) &&
                count == old(count) + 1 &&
                maxLevel == 0 &&
                Dangling() == old(Dangling())
    {
      if value.None? {
        return Throw(ArgumentNull);
      }
      var v := value.value;
      var pred, k := Descend(v);
      if pred.Fail? {
        return Throw(pred.error);
      }
      var heads: nat :| true;
      var level := RandomLevel(heads, maxLevel);
      // level <= MaxLevel == 0: the branch raising MaxLevel is never taken and
      // the new node is spliced in at level 0 only.
      assert level == 0;
      InsertAtCeiling(Contents(), v);
      nodes, spine := LinkAfter(nodes, head, spine, pred.value, k, v);
      count := count + 1;
      r := Pass;
    }

    /** `Clear()`: a fresh head, `MaxLevel` 0 and `Count` 0. */
    method Clear()
      modifies this
      ensures Valid() && IsFresh()
    {
      nodes, head, maxLevel, count := [Node(Sentinel, Absent)], 0, 0, 0;
      spine := [];
    }

    /** `Contains(T value)`: the first node not less than `value` `Equals` it. */
    method Contains(value: Option<Item>) returns (r: Result<bool>)
      requires Valid()
      ensures value.None? ==> r == Fail(ArgumentNull)
      ensures value.Some? && Crashes(value.value) ==> r == Fail(NullReference)
      ensures value.Some? && !Crashes(value.value) ==> r == Ok(HasKey(Contents(), value.value))
    {
      if value.None? {
        return Fail(ArgumentNull);
      }
      var v := value.value;
      var pred, k := Descend(v);
      if pred.Fail? {
        return Fail(pred.error);
      }
      var candidate := Successor(nodes[pred.value].forward);
      CeilingDecidesMembership(Contents(), v);
      r := Ok(candidate.Some? && Equal(nodes[candidate.value].value, v));
    }

    /** `CopyTo(T[] array, int arrayIndex)`: bounds checks, then the chain in order
        from `arrayIndex` on; cells outside that range are left alone. */
    method CopyTo(target: array?<Item>, arrayIndex: int) returns (r: Outcome)
      requires Valid()
      modifies target
      ensures target == null ==> r == Throw(ArgumentNull)
      ensures target != null && (arrayIndex < 0 || arrayIndex >= target.Length) ==>
                r == Throw(ArgumentOutOfRange) && unchanged(target)
      ensures target != null && 0 <= arrayIndex < target.Length && target.Length - arrayIndex < count ==>
                r == Throw(Argument) && unchanged(target)
      ensures target != null && 0 <= arrayIndex < target.Length && target.Length - arrayIndex >= count ==>
                r == Pass &&
                target[..] == old(target[..arrayIndex]) + Contents() + old(target[arrayIndex + count..])
    {
      if target == null {
        return Throw(ArgumentNull);
      }
      if arrayIndex < 0 || arrayIndex >= target.Length {
        return Throw(ArgumentOutOfRange);
      }
      if target.Length - arrayIndex < count {
        return Throw(Argument);
      }
      CopyChain(nodes, head, spine, target, arrayIndex);
      r := Pass;
    }

    /** `Find(T value)`: the first node not less than `value`, provided it compares
        equal; otherwise `KeyNotFoundException`. */
    method Find(value: Option<Item>) returns (r: Result<Item>)
      requires Valid()
      ensures value.None? ==> r == Fail(ArgumentNull)
      ensures value.Some? && Crashes(value.value) ==> r == Fail(NullReference)
      ensures value.Some? && !Crashes(value.value) ==>
                (r.Ok? <==> HasKey(Contents(), value.value)) &&
                (r.Fail? ==> r.error == KeyNotFound) &&
                (r.Ok? ==> Equal(r.value, value.value) &&
                           r.value == Contents()[Ceiling(Contents(), value.value)])
    {
      if value.None? {
        return Fail(ArgumentNull);
      }
      var v := value.value;
      var pred, k := Descend(v);
      if pred.Fail? {
        return Fail(pred.error);
      }
      var candidate := Successor(nodes[pred.value].forward);
      CeilingDecidesMembership(Contents(), v);
      if candidate.None? || !Equal(nodes[candidate.value].value, v) {
        return Fail(KeyNotFound);
      }
      r := Ok(nodes[candidate.value].value);
    }

    /** `FindOrDefault(T value, T? defaultValue)`: `Find`, with a miss turned into
        the supplied default; every other exception passes through. */
    method FindOrDefault(value: Option<Item>, defaultValue: Option<Item>) returns (r: Result<Option<Item>>)
      requires Valid()
      ensures value.None? ==> r == Fail(ArgumentNull)
      ensures value.Some? && Crashes(value.value) ==> r == Fail(NullReference)
      ensures value.Some? && !Crashes(value.value) ==>
                r == Ok(if HasKey(Contents(), value.value)
                        then Some(Contents()[Ceiling(Contents(), value.value)])
                        else defaultValue)
    {
      if value.None? {
        return Fail(ArgumentNull);
      }
      var found := Find(value);
      match found {
        case Ok(x) => r := Ok(Some(x));
        case Fail(e) => r := if e == KeyNotFound then Ok(defaultValue) else Fail(e);
      }
    }

    /** `Remove(T value)`: unlink the first node not less than `value` when it
        `Equals` `value`.  Unlinking the last node writes a null entry into its
        predecessor (`GetValueOrDefault(i)!`), which later descents dereference;
        when `Count` drops to 0 the list is cleared. */
    method Remove(value: Option<Item>) returns (r: Result<bool>)
      requires Valid()
      modifies this
      ensures Valid()
      ensures value.None? ==> r == Fail(ArgumentNull) && unchanged(this)
      ensures value.Some? && old(count) == 0 ==> r == Ok(false) && unchanged(this)
      ensures value.Some? && old(count) > 0 && old(Crashes(value.value)) ==>
                r == Fail(NullReference) && unchanged(this)
      ensures value.Some? && old(count) > 0 && !old(Crashes(value.value)) ==>
                r == Ok(old(HasKey(Contents(), value.value))) &&
                (r == Ok(false) ==> unchanged(this)) &&
                (r == Ok(true) ==>
                   var k := Ceiling(old(Contents()), value.value);
                   Contents() == RemoveAt(old(Contents()), k) &&
                   count == old(count) - 1 &&
                   (count == 0 ==> IsFresh()) &&
                   Dangling() == (count > 0 && (old(Dangling()) || k == count)))
    {
      if value.None? {
        return Fail(ArgumentNull);
      }
      if count == 0 {
        return Ok(false);
      }
      var v := value.value;
      var pred, k := Descend(v);
      if pred.Fail? {
        return Fail(pred.error);
      }
      var candidate := Successor(nodes[pred.value].forward);
      CeilingDecidesMembership(Contents(), v);
      if candidate.None? || !Equal(nodes[candidate.value].value, v) {
        return Ok(false);
      }
      nodes, spine := Unlink(nodes, head, spine, pred.value, candidate.value, k);
      // MaxLevel is 0, so the loop lowering MaxLevel does not run.
      count := count - 1;
      if count == 0 {
        Clear();
      }
      r := Ok(true);
    }

    /** `GetEnumerator()`: the values along level 0, from the head to the first
        missing or null entry. */
    method Enumerate() returns (s: seq<Item>)
      requires Valid()
      ensures s == Contents()
      ensures Sorted(s) && |s| == count
    {
      Links();
      ValuesIndex(nodes, spine);
      ghost var sp, C := spine, Contents();
      var current := Successor(nodes[head].forward);
      ghost var j := 0;
      s := [];
      while current.Some?
        invariant 0 <= j <= |sp| && s == C[..j]
        invariant current == if j < |sp| then Some(sp[j]) else None
        decreases |sp| - j
      {
        s := s + [nodes[current.value].value];
        current := Successor(nodes[current.value].forward);
        j := j + 1;
      }
    }

    /** `AddRange(IEnumerable<T>? collection)`: sort the input, then bulk-merge it. */
    method AddRange(collection: Option<seq<Item>>) returns (r: Outcome)
      requires Valid()
      modifies this
      ensures Valid()
      ensures collection.None? ==> r == Throw(ArgumentNull) && unchanged(this)
      ensures collection.Some? && old(Dangling()) ==> r == Throw(NullReference) && unchanged(this)
      ensures collection.Some? && !old(Dangling()) ==>
                r == Pass &&
                Contents() == Merge(old(Contents()), SortItems(collection.value)) &&
                count == old(count) + |collection.value| &&
                !Dangling()
    {
      if collection.None? {
        return Throw(ArgumentNull);
      }
      var items := SortItems(collection.value);
      r := BulkAdd(items);
      SortSortedIsIdentity(items);
    }

    /** `BulkAdd(List<T> items)`, corrected: merge the sorted items into the
        level-0 chain behind a fresh head.  `rest` is the first old node not yet
        merged; keeping it apart from `temp`, the last node of the new chain, is
        what stops relinking an old node from losing its successor.  Every merge
        walks the old chain to its end, so a null entry left there by `Remove`
        is always dereferenced: the merge throws `NullReferenceException` before
        the new head is installed. */
    method BulkAdd(items0: seq<Item>) returns (r: Outcome)
      requires Valid()
      modifies this
      ensures Valid()
      ensures old(Dangling()) ==> r == Throw(NullReference) && unchanged(this)
      ensures !old(Dangling()) ==>
                r == Pass &&
                Contents() == Merge(old(Contents()), SortItems(items0)) &&
                count == old(count) + |items0| &&
                !Dangling()
    {
      var items := SortItems(items0);
      Links();
      var crashed: bool, arena: seq<Node>, newHead: nat;
      ghost var built: seq<nat>;
      crashed, arena, newHead, built := MergeChains(nodes, head, spine, items);
      if crashed {
        return Throw(NullReference);
      }
      MergedWellFormed(nodes, head, spine, items, arena, newHead, built);
      Install(arena, newHead, built, count + |items|);
      r := Pass;
    }

    /** `Head = newHead` and `_count += n` once a merge has built a new chain
        holding `newCount` items. */
    method Install(arena: seq<Node>, newHead: nat, ghost built: seq<nat>, newCount: int)
      requires maxLevel == 0 && WellFormed(arena, newHead, built) && newCount == |built|
      modifies this
      ensures Valid() && nodes == arena && head == newHead && spine == built && count == newCount
      ensures Contents() == Values(arena, built)
      ensures Dangling() == DanglingIn(arena, newHead, built)
    {
      nodes, head, spine := arena, newHead, built;
      count := newCount;
    }
  }

  /** The splice of `Add` at level 0: a new node holding `v` goes in after `p`,
      the `k`-th node of the chain, taking over `p`'s entry. */
  method LinkAfter(nodes: seq<Node>, head: nat, ghost spine: seq<nat>, p: nat, ghost k: nat, v: Item)
    returns (nodes': seq<Node>, ghost spine': seq<nat>)
    requires WellFormed(nodes, head, spine) && k <= |spine| && p == ([head] + spine)[k]
    requires Sorted(InsertAt(Values(nodes, spine), k, v))
    requires !(DanglingIn(nodes, head, spine) && k == |spine|)
    ensures WellFormed(nodes', head, spine') && |spine'| == |spine| + 1
    ensures Values(nodes', spine') == InsertAt(Values(nodes, spine), k, v)
    ensures DanglingIn(nodes', head, spine') == DanglingIn(nodes, head, spine)
  {
    InsertNode(nodes, head, spine, k, v);
    var m := |nodes|;
    nodes' := nodes[p := nodes[p].(forward := To(m))] + [Node(v, nodes[p].forward)];
    spine' := spine[..k] + [m] + spine[k..];
  }

  /** The unlinking of `Remove` at level 0: `p`, the `k`-th node of the chain,
      takes over the entry of `n`, the node after it, or a null entry when that node
      was the last. */
  method Unlink(nodes: seq<Node>, head: nat, ghost spine: seq<nat>, p: nat, n: nat, ghost k: nat)
    returns (nodes': seq<Node>, ghost spine': seq<nat>)
    requires WellFormed(nodes, head, spine) && k < |spine| && p == ([head] + spine)[k] && n == spine[k]
    ensures InArena(nodes', spine') && |spine'| == |spine| - 1
    ensures Values(nodes', spine') == RemoveAt(Values(nodes, spine), k)
    ensures spine' != [] ==>
              WellFormed(nodes', head, spine') &&
              DanglingIn(nodes', head, spine') == (DanglingIn(nodes, head, spine) || k == |spine'|)
  {
    UnlinkKeepsLinked(nodes, head, spine, k);
    LinkedSteps(nodes, head, spine);
    var after := nodes[n].forward;
    nodes' := nodes[p := nodes[p].(forward := if after.To? then after else Null)];
    spine' := spine[..k] + spine[k + 1..];
    ValuesRemove(nodes, nodes', spine, k);
    RemoveAtKeepsSorted(Values(nodes, spine), k);
  }

  /** The merged chain of a bulk load is well formed. */
  lemma MergedWellFormed(nodes: seq<Node>, head: nat, spine: seq<nat>, items: seq<Item>,
                         arena: seq<Node>, newHead: nat, built: seq<nat>)
    requires WellFormed(nodes, head, spine) && Sorted(items)
    requires Linked(arena, newHead, built)
    requires Values(arena, built) == Merge(Values(nodes, spine), items)
    ensures WellFormed(arena, newHead, built)
    ensures multiset(Values(arena, built)) == multiset(Values(nodes, spine)) + multiset(items)
  {
    MergeSortedPermutation(Values(nodes, spine), items);
  }

  /** The level-0 links of a linked chain, spelled out along the spine. */
  lemma LinkedSteps(nodes: seq<Node>, head: nat, spine: seq<nat>)
    requires Linked(nodes, head, spine)
    ensures head < |nodes| && LastOf(head, spine) < |nodes|
    ensures forall k :: 0 <= k < |spine| ==> spine[k] < |nodes|
    ensures forall k {:trigger nodes[spine[k]]} :: 0 <= k < |spine| - 1 ==> nodes[spine[k]].forward == To(spine[k + 1])
    ensures Successor(nodes[head].forward) == if spine == [] then None else Some(spine[0])
    ensures !nodes[LastOf(head, spine)].forward.To?
  {
    var path := [head] + spine;
    forall k | 0 <= k < |spine| - 1 ensures nodes[spine[k]].forward == To(spine[k + 1]) {
      assert path[k + 1] == spine[k] && path[k + 2] == spine[k + 1];
    }
    assert path[0] == head;
  }

  /** The handle after position `q` of a spine, if any. */
  ghost function NextOf(spine: seq<nat>, q: nat): Option<nat> {
    if q + 1 < |spine| then Some(spine[q + 1]) else None
  }

  /** Following the level-0 entry from each node of `spine` leads to the next
      one, and from the last one to nothing. */
  ghost predicate Walk(nodes: seq<Node>, spine: seq<nat>) {
    InArena(nodes, spine) &&
    forall q {:trigger nodes[spine[q]]} :: 0 <= q < |spine| ==> Successor(nodes[spine[q]].forward) == NextOf(spine, q)
  }

  /** A linked chain can be walked from the head. */
  lemma LinkedWalk(nodes: seq<Node>, head: nat, spine: seq<nat>)
    requires Linked(nodes, head, spine)
    ensures head < |nodes| && Successor(nodes[head].forward) == if spine == [] then None else Some(spine[0])
    ensures Walk(nodes, spine) && Distinct(spine)
  {
    LinkedSteps(nodes, head, spine);
    SpineDistinct(nodes, head, spine);
    forall q | 0 <= q < |spine| ensures Successor(nodes[spine[q]].forward) == NextOf(spine, q) {
      if q + 1 == |spine| {
        assert spine[q] == LastOf(head, spine);
      }
    }
  }

  /** The handles of a linked chain are pairwise different. */
  lemma SpineDistinct(nodes: seq<Node>, head: nat, spine: seq<nat>)
    requires Linked(nodes, head, spine)
    ensures Distinct(spine)
  {
    var path := [head] + spine;
    forall p, q | 0 <= p < q < |spine| ensures spine[p] != spine[q] {
      assert path[p + 1] == spine[p] && path[q + 1] == spine[q];
    }
  }

  /** `CopyTo` once its checks have passed: the chain's values, in order,
      into the cells from `arrayIndex` on, which the caller has checked are
      enough. */
  method CopyChain(nodes: seq<Node>, head: nat, ghost spine: seq<nat>, target: array<Item>, arrayIndex: nat)
    requires Linked(nodes, head, spine)
    requires arrayIndex + |spine| <= target.Length
    modifies target
    ensures target[..] == old(target[..arrayIndex]) + Values(nodes, spine) + old(target[arrayIndex + |spine|..])
  {
    LinkedSuccessors(nodes, head, spine);
    ValuesIndex(nodes, spine);
    CopyValues(nodes, Successor(nodes[head].forward), spine, Values(nodes, spine), target, arrayIndex);
  }

  /** Following the level-0 entries from the head visits the spine in order
      and then stops. */
  lemma LinkedSuccessors(nodes: seq<Node>, head: nat, spine: seq<nat>)
    requires Linked(nodes, head, spine)
    ensures head < |nodes| && forall k :: 0 <= k < |spine| ==> spine[k] < |nodes|
    ensures Successor(nodes[head].forward) == if spine == [] then None else Some(spine[0])
    ensures forall k :: 0 <= k < |spine| ==>
              Successor(nodes[spine[k]].forward) == if k + 1 < |spine| then Some(spine[k + 1]) else None
  {
    LinkedSteps(nodes, head, spine);
    forall k | 0 <= k < |spine|
      ensures Successor(nodes[spine[k]].forward) == if k + 1 < |spine| then Some(spine[k + 1]) else None
    {
      if k + 1 == |spine| {
        assert spine[k] == LastOf(head, spine);
      }
    }
  }

  /** The copy loop of `CopyTo`: follows the level-0 entries from `first`
      along `spine`, writing each node's value, listed in `values`, into the
      next cell. */
  method CopyValues(nodes: seq<Node>, first: Option<nat>, ghost spine: seq<nat>, ghost values: seq<Item>,
                    target: array<Item>, arrayIndex: nat)
    requires forall k :: 0 <= k < |spine| ==> spine[k] < |nodes|
    requires first == if spine == [] then None else Some(spine[0])
    requires forall k :: 0 <= k < |spine| ==>
               Successor(nodes[spine[k]].forward) == if k + 1 < |spine| then Some(spine[k + 1]) else None
    requires |values| == |spine| && forall k :: 0 <= k < |spine| ==> values[k] == nodes[spine[k]].value
    requires arrayIndex + |spine| <= target.Length
    modifies target
    ensures target[..] == old(target[..arrayIndex]) + values + old(target[arrayIndex + |spine|..])
  {
    var current := first;
    var i := arrayIndex;
    ghost var j := 0;
    while current.Some? && i < target.Length
      invariant 0 <= j <= |spine| && i == arrayIndex + j
      invariant current == if j < |spine| then Some(spine[j]) else None
      invariant forall q :: 0 <= q < target.Length ==>
                  target[q] == if arrayIndex <= q < i then values[q - arrayIndex] else old(target[q])
      decreases |spine| - j
    {
      target[i] := nodes[current.value].value;
      i := i + 1;
      current := Successor(nodes[current.value].forward);
      j := j + 1;
    }
    Splice(target[..], old(target[..]), values, arrayIndex);
  }

  /** A sequence that agrees with `before` except for `values` written from
      `at` on is the splice of the two. */
  lemma Splice(t: seq<Item>, before: seq<Item>, values: seq<Item>, at: nat)
    requires |t| == |before| && at + |values| <= |t|
    requires forall q :: 0 <= q < |t| ==>
               t[q] == if at <= q < at + |values| then values[q - at] else before[q]
    ensures t == before[..at] + values + before[at + |values|..]
  {
    var after := before[..at] + values + before[at + |values|..];
    forall q | 0 <= q < |t| ensures t[q] == after[q] {
      if q >= at + |values| {
        assert after[q] == before[at + |values|..][q - at - |values|];
      }
    }
  }

  /** The merge loops of the corrected `BulkAdd`, over the arena: the sorted
      `items` are merged into the chain `[head] + spine` behind a fresh head
      `|nodes|`.  `rest` is the entry leading to the first old node not yet
      merged, `temp` the last node of the new chain.  Reaching an entry that
      holds null crashes: the inner loop reads `next.Value` through it, the
      draining loop copies it into `current` and dereferences that. */
  method MergeChains(nodes: seq<Node>, head: nat, ghost spine: seq<nat>, items: seq<Item>)
    returns (crashed: bool, arena: seq<Node>, newHead: nat, ghost built: seq<nat>)
    requires Linked(nodes, head, spine)
    ensures crashed <==> DanglingIn(nodes, head, spine)
    ensures !crashed ==>
              Linked(arena, newHead, built) && !DanglingIn(arena, newHead, built) &&
              Values(arena, built) == Merge(Values(nodes, spine), items)
  {
    ghost var oldPath := [head] + spine;
    assert oldPath[0] == head;
    arena := nodes + [Node(Sentinel, Absent)];
    newHead := |nodes|;
    var rest := nodes[head].forward;
    var temp: nat := newHead;
    built := [];
    ghost var k: nat := 0;
    var i := 0;
    MergeBegin(nodes, head, spine, items);
    while i < |items|
      invariant 0 <= i <= |items|
      invariant MergeInv(nodes, oldPath, items, i, arena, built, temp, rest, k)
      invariant !DanglingIn(nodes, head, spine) || rest.To?
    {
      var item := items[i];
      arena, built, temp, rest, k := TakeOlder(nodes, oldPath, items, i, arena, built, temp, rest, k, Some(item));
      if rest.Null? {
        MergeDone(nodes, head, spine, arena, built, temp, rest, k);
        return true, arena, newHead, built;
      }
      arena, built, temp := AppendItem(nodes, oldPath, items, i, arena, built, temp, rest, k);
      i := i + 1;
      if !rest.To? {
        MergeDone(nodes, head, spine, arena, built, temp, rest, k);
      }
    }
    arena, built, temp, rest, k := TakeOlder(nodes, oldPath, items, i, arena, built, temp, rest, k, None);
    MergeDone(nodes, head, spine, arena, built, temp, rest, k);
    if rest.Null? {
      return true, arena, newHead, built;
    }
    crashed := false;
    MergeEnd(nodes, head, spine, items, arena, built, temp, rest, k);
  }

  /** The merge state before the first step: an empty new chain behind a fresh
      head, with the whole old chain and all items still to merge. */
  lemma MergeBegin(nodes: seq<Node>, head: nat, spine: seq<nat>, items: seq<Item>)
    requires Linked(nodes, head, spine) && head < |nodes|
    ensures MergeInv(nodes, [head] + spine, items, 0, nodes + [Node(Sentinel, Absent)], [], |nodes|, nodes[head].forward, 0)
  {
    var oldPath := [head] + spine;
    var arena := nodes + [Node(Sentinel, Absent)];
    assert oldPath[0] == head && oldPath[1..] == spine;
    MergeStart(nodes, oldPath, arena);
    MergeNext(nodes, oldPath, arena, [], |nodes|, nodes[head].forward, 0);
    ValuesIndex(nodes, spine);
    assert Values(nodes, spine)[0..] == Values(nodes, spine) && items[0..] == items;
  }

  /** The merge state once both inputs are used up is the merged chain. */
  lemma MergeEnd(nodes: seq<Node>, head: nat, spine: seq<nat>, items: seq<Item>,
                 arena: seq<Node>, built: seq<nat>, temp: nat, rest: Link, k: nat)
    requires Linked(nodes, head, spine)
    requires MergeInv(nodes, [head] + spine, items, |items|, arena, built, temp, rest, k) && rest.Absent?
    ensures Linked(arena, |nodes|, built) && !DanglingIn(arena, |nodes|, built)
    ensures Values(arena, built) == Merge(Values(nodes, spine), items)
  {
    var oldPath := [head] + spine;
    assert oldPath[1..] == spine;
    assert items[|items|..] == [] && Values(nodes, spine)[k..] == [];
    MergeDone(nodes, head, spine, arena, built, temp, rest, k);
  }

  /** The loop state of the merge, with the merged prefix `Values(arena, built)`
      and what remains to merge adding up to the whole merge. */
  ghost predicate MergeInv(nodes: seq<Node>, oldPath: seq<nat>, items: seq<Item>, i: nat,
                           arena: seq<Node>, built: seq<nat>, temp: nat, rest: Link, k: nat)
  {
    |oldPath| >= 1 && InArena(nodes, oldPath[1..]) && i <= |items| && temp < |arena| &&
    Merging(nodes, oldPath, arena, built, temp, rest, k) &&
    var oldC := Values(nodes, oldPath[1..]);
    (rest.To? <==> k < |oldC|) &&
    (rest.To? ==> rest.at < |arena| && arena[rest.at].value == oldC[k]) &&
    Values(arena, built) + Merge(oldC[k..], items[i..]) == Merge(oldC, items)
  }

  /** Move old nodes to the end of the new chain while they are less than
      `bound`, or all of them when there is no bound. */
  method TakeOlder(ghost nodes: seq<Node>, ghost oldPath: seq<nat>, ghost items: seq<Item>, ghost i: nat,
                   arena: seq<Node>, ghost built: seq<nat>, temp: nat, rest: Link, ghost k: nat,
                   bound: Option<Item>)
    returns (arena': seq<Node>, ghost built': seq<nat>, temp': nat, rest': Link, ghost k': nat)
    requires MergeInv(nodes, oldPath, items, i, arena, built, temp, rest, k)
    requires bound.Some? ==> i < |items| && bound.value == items[i]
    requires bound.None? ==> i == |items|
    ensures MergeInv(nodes, oldPath, items, i, arena', built', temp', rest', k')
    ensures bound.Some? && rest'.To? ==> !Less(arena'[rest'.at].value, bound.value)
    ensures bound.None? ==> !rest'.To?
  {
    arena', built', temp', rest', k' := arena, built, temp, rest, k;
    while rest'.To? && (bound.None? || Less(arena'[rest'.at].value, bound.value))
      invariant MergeInv(nodes, oldPath, items, i, arena', built', temp', rest', k')
      decreases |oldPath| - k'
    {
      arena', built', temp', rest', k' := MoveOld(nodes, oldPath, items, i, arena', built', temp', rest', k');
    }
  }

  /** Move the next old node, which is less than the current item (if any), to
      the end of the new chain. */
  method MoveOld(ghost nodes: seq<Node>, ghost oldPath: seq<nat>, ghost items: seq<Item>, ghost i: nat,
                 arena: seq<Node>, ghost built: seq<nat>, temp: nat, rest: Link, ghost k: nat)
    returns (arena': seq<Node>, ghost built': seq<nat>, temp': nat, rest': Link, ghost k': nat)
    requires MergeInv(nodes, oldPath, items, i, arena, built, temp, rest, k) && rest.To?
    requires i < |items| ==> Less(arena[rest.at].value, items[i])
    ensures MergeInv(nodes, oldPath, items, i, arena', built', temp', rest', k')
    ensures k' == k + 1
  {
    var n := rest.at;
    arena' := arena[temp := arena[temp].(forward := rest)];
    temp' := n;
    rest' := arena'[n].forward;
    built' := built + [n];
    k' := k + 1;
    AdvanceOld(nodes, oldPath, items, i, arena, built, temp, rest, k, arena', built', temp', rest', k');
  }

  /** Append a fresh node holding the current item to the end of the new
      chain; no remaining old node is less than it. */
  method AppendItem(ghost nodes: seq<Node>, ghost oldPath: seq<nat>, items: seq<Item>, i: nat,
                    arena: seq<Node>, ghost built: seq<nat>, temp: nat, ghost rest: Link, ghost k: nat)
    returns (arena': seq<Node>, ghost built': seq<nat>, temp': nat)
    requires MergeInv(nodes, oldPath, items, i, arena, built, temp, rest, k) && i < |items|
    requires rest.To? ==> !Less(arena[rest.at].value, items[i])
    ensures MergeInv(nodes, oldPath, items, i + 1, arena', built', temp', rest, k)
  {
    temp' := |arena|;
    arena' := arena[temp := arena[temp].(forward := To(temp'))] + [Node(items[i], Absent)];
    built' := built + [temp'];
    AdvanceNew(nodes, oldPath, items, i, arena, built, temp, rest, k, arena', built', temp');
  }

  /** One loop step moving the next old node, which is less than the current
      item (if any), to the end of the new chain. */
  lemma AdvanceOld(nodes: seq<Node>, oldPath: seq<nat>, items: seq<Item>, i: nat,
                   arena: seq<Node>, built: seq<nat>, temp: nat, rest: Link, k: nat,
                   arena': seq<Node>, built': seq<nat>, temp': nat, rest': Link, k': nat)
    requires MergeInv(nodes, oldPath, items, i, arena, built, temp, rest, k) && rest.To?
    requires i < |items| ==> Less(arena[rest.at].value, items[i])
    requires arena' == arena[temp := arena[temp].(forward := rest)]
    requires built' == built + [rest.at] && temp' == rest.at && k' == k + 1
    requires rest' == arena'[rest.at].forward
    ensures MergeInv(nodes, oldPath, items, i, arena', built', temp', rest', k')
  {
    var oldC := Values(nodes, oldPath[1..]);
    MergeTakeOld(nodes, oldPath, arena, arena', built, temp, rest, k);
    MergeOldStep(Values(arena, built), oldC[k], oldC, items, k, i);
    MergeNext(nodes, oldPath, arena', built', temp', rest', k');
  }

  /** One loop step appending a fresh node for the current item, which no
      remaining old node is less than. */
  lemma AdvanceNew(nodes: seq<Node>, oldPath: seq<nat>, items: seq<Item>, i: nat,
                   arena: seq<Node>, built: seq<nat>, temp: nat, rest: Link, k: nat,
                   arena': seq<Node>, built': seq<nat>, temp': nat)
    requires MergeInv(nodes, oldPath, items, i, arena, built, temp, rest, k) && i < |items|
    requires rest.To? ==> !Less(arena[rest.at].value, items[i])
    requires arena' == arena[temp := arena[temp].(forward := To(|arena|))] + [Node(items[i], Absent)]
    requires built' == built + [|arena|] && temp' == |arena|
    ensures MergeInv(nodes, oldPath, items, i + 1, arena', built', temp', rest, k)
  {
    var oldC := Values(nodes, oldPath[1..]);
    MergeTakeNew(nodes, oldPath, arena, arena', built, temp, rest, k, items[i]);
    MergeNewStep(Values(arena, built), oldC, items, k, i);
    MergeNext(nodes, oldPath, arena', built', temp', rest, k);
  }

  // ---------------------------------------------------------------------------
  // Splicing lemmas

  /** The values along a spine after handle `m` is inserted at position `k`. */
  lemma ValuesInsert(nodes: seq<Node>, nodes': seq<Node>, spine: seq<nat>, k: nat, m: nat)
    requires InArena(nodes, spine) && k <= |spine| && m == |nodes| && |nodes'| == m + 1
    requires forall x :: 0 <= x < m ==> nodes'[x].value == nodes[x].value
    ensures InArena(nodes', spine[..k] + [m] + spine[k..])
    ensures Values(nodes', spine[..k] + [m] + spine[k..]) == InsertAt(Values(nodes, spine), k, nodes'[m].value)
  {
    var spine' := spine[..k] + [m] + spine[k..];
    ValuesIndex(nodes, spine);
    ValuesIndex(nodes', spine');
    var C, C' := Values(nodes, spine), Values(nodes', spine');
    var D := InsertAt(C, k, nodes'[m].value);
    assert |C'| == |D|;
    forall j | 0 <= j < |C'| ensures C'[j] == D[j] {
      if j < k {
        assert spine'[j] == spine[j];
        assert C'[j] == nodes'[spine[j]].value == C[j];
      } else if j > k {
        assert spine'[j] == spine[j - 1];
        assert C'[j] == nodes'[spine[j - 1]].value == C[j - 1];
      } else {
        assert spine'[j] == m;
      }
    }
  }

  /** The values along a spine after its `k`-th handle is dropped. */
  lemma ValuesRemove(nodes: seq<Node>, nodes': seq<Node>, spine: seq<nat>, k: nat)
    requires InArena(nodes, spine) && k < |spine| && |nodes'| == |nodes|
    requires forall x :: 0 <= x < |nodes| ==> nodes'[x].value == nodes[x].value
    ensures InArena(nodes', spine[..k] + spine[k + 1..])
    ensures Values(nodes', spine[..k] + spine[k + 1..]) == RemoveAt(Values(nodes, spine), k)
  {
    var spine' := spine[..k] + spine[k + 1..];
    ValuesIndex(nodes, spine);
    ValuesIndex(nodes', spine');
    var C, C' := Values(nodes, spine), Values(nodes', spine');
    var D := RemoveAt(C, k);
    assert |C'| == |D|;
    forall j | 0 <= j < |C'| ensures C'[j] == D[j] {
      if j < k {
        assert spine'[j] == spine[j];
        assert C'[j] == nodes'[spine[j]].value == C[j];
      } else {
        assert spine'[j] == spine[j + 1];
        assert C'[j] == nodes'[spine[j + 1]].value == C[j + 1];
      }
    }
  }

  /** Splicing a node holding `v` in after the `k`-th node of the chain keeps
      the chain well formed (when `v` belongs at position `k`) and inserts `v` at
      position `k`; whether the last entry is null does not change. */
  lemma InsertNode(nodes: seq<Node>, head: nat, spine: seq<nat>, k: nat, v: Item)
    requires WellFormed(nodes, head, spine) && k <= |spine|
    requires Sorted(InsertAt(Values(nodes, spine), k, v))
    requires !(DanglingIn(nodes, head, spine) && k == |spine|)
    ensures var p := ([head] + spine)[k];
            var m := |nodes|;
            var nodes' := nodes[p := nodes[p].(forward := To(m))] + [Node(v, nodes[p].forward)];
            var spine' := spine[..k] + [m] + spine[k..];
            WellFormed(nodes', head, spine') &&
            Values(nodes', spine') == InsertAt(Values(nodes, spine), k, v) &&
            DanglingIn(nodes', head, spine') == DanglingIn(nodes, head, spine)
  {
    var p := ([head] + spine)[k];
    var m := |nodes|;
    var nodes' := nodes[p := nodes[p].(forward := To(m))] + [Node(v, nodes[p].forward)];
    InsertLinked(nodes, head, spine, k, v);
    ValuesInsert(nodes, nodes', spine, k, m);
  }

  /** The splice keeps the chain linked, with the new node at position `k`,
      and keeps whether its last node holds a null entry. */
  lemma InsertLinked(nodes: seq<Node>, head: nat, spine: seq<nat>, k: nat, v: Item)
    requires Linked(nodes, head, spine) && k <= |spine|
    requires !(DanglingIn(nodes, head, spine) && k == |spine|)
    ensures var p := ([head] + spine)[k];
            var m: nat := |nodes|;
            var nodes' := nodes[p := nodes[p].(forward := To(m))] + [Node(v, nodes[p].forward)];
            var spine' := spine[..k] + [m] + spine[k..];
            Linked(nodes', head, spine') &&
            DanglingIn(nodes', head, spine') == DanglingIn(nodes, head, spine)
  {
    var path := [head] + spine;
    var p := path[k];
    var m: nat := |nodes|;
    var nodes' := nodes[p := nodes[p].(forward := To(m))] + [Node(v, nodes[p].forward)];
    var spine' := spine[..k] + [m] + spine[k..];
    SpliceIn(nodes, path, k, v);
    InsertIntoPath(head, spine, k, m);
    InsertLast(nodes, head, spine, k, m);
    var last := LastOf(head, spine);
    if k == |spine| {
      assert p == last && nodes'[m].forward == nodes[last].forward;
    } else {
      assert nodes'[last] == nodes[last];
    }
  }

  /** Inserting `m` after the `k + 1`-th element of the path inserts it at
      position `k` of the spine. */
  lemma InsertIntoPath(head: nat, spine: seq<nat>, k: nat, m: nat)
    requires k <= |spine|
    ensures [head] + (spine[..k] + [m] + spine[k..]) == ([head] + spine)[..k + 1] + [m] + ([head] + spine)[k + 1..]
  {
    var path := [head] + spine;
    assert path[..k + 1] == [head] + spine[..k];
    assert path[k + 1..] == spine[k..];
  }

  /** Where the chain ends after a node `m` is spliced in at position `k`:
      at `m` when it was appended, otherwise where it ended before, which is
      not the node `m` was spliced after. */
  lemma InsertLast(nodes: seq<Node>, head: nat, spine: seq<nat>, k: nat, m: nat)
    requires Linked(nodes, head, spine) && k <= |spine|
    ensures LastOf(head, spine[..k] + [m] + spine[k..]) == if k == |spine| then m else LastOf(head, spine)
    ensures k < |spine| ==> LastOf(head, spine) != ([head] + spine)[k]
  {
    var path := [head] + spine;
    if k < |spine| {
      assert LastOf(head, spine) == path[|spine|];
    }
  }


  /** Unlinking the `k + 1`-th node of the chain: the predecessor takes over the
      removed node's entry, or a null entry when the removed node was the last.
      Unless that empties the chain, it stays linked, and its last entry is null
      when it was before or when the last node was the one removed. */
  lemma UnlinkKeepsLinked(nodes: seq<Node>, head: nat, spine: seq<nat>, k: nat)
    requires Linked(nodes, head, spine) && k < |spine|
    ensures var p := ([head] + spine)[k];
            var after := nodes[spine[k]].forward;
            var nodes' := nodes[p := nodes[p].(forward := if after.To? then after else Null)];
            var spine' := spine[..k] + spine[k + 1..];
            spine' != [] ==>
              Linked(nodes', head, spine') &&
              DanglingIn(nodes', head, spine') == (DanglingIn(nodes, head, spine) || k == |spine'|)
  {
    UnlinkChain(nodes, head, spine, k);
    if k == |spine| - 1 {
      UnlinkLast(nodes, head, spine, k);
    } else {
      UnlinkInner(nodes, head, spine, k);
    }
  }

  /** The chain with the `k + 1`-th node unlinked is still a chain. */
  lemma UnlinkChain(nodes: seq<Node>, head: nat, spine: seq<nat>, k: nat)
    requires Linked(nodes, head, spine) && k < |spine|
    ensures var p := ([head] + spine)[k];
            var after := nodes[spine[k]].forward;
            var nodes' := nodes[p := nodes[p].(forward := if after.To? then after else Null)];
            Chain(nodes', [head] + (spine[..k] + spine[k + 1..]))
  {
    var path := [head] + spine;
    assert path[k + 1] == spine[k];
    SpliceOut(nodes, path, k);
    DropFromPath(head, spine, k);
  }

  /** Dropping the `k + 1`-th element of the path drops the `k`-th of the spine. */
  lemma DropFromPath(head: nat, spine: seq<nat>, k: nat)
    requires k < |spine|
    ensures [head] + (spine[..k] + spine[k + 1..]) == ([head] + spine)[..k + 1] + ([head] + spine)[k + 2..]
  {
    var path := [head] + spine;
    assert path[..k + 1] == [head] + spine[..k];
    assert path[k + 2..] == spine[k + 1..];
  }

  lemma UnlinkLast(nodes: seq<Node>, head: nat, spine: seq<nat>, k: nat)
    requires Linked(nodes, head, spine) && k == |spine| - 1
    requires var p := ([head] + spine)[k];
             var after := nodes[spine[k]].forward;
             var nodes' := nodes[p := nodes[p].(forward := if after.To? then after else Null)];
             Chain(nodes', [head] + (spine[..k] + spine[k + 1..]))
    ensures var p := ([head] + spine)[k];
            var after := nodes[spine[k]].forward;
            var nodes' := nodes[p := nodes[p].(forward := if after.To? then after else Null)];
            var spine' := spine[..k] + spine[k + 1..];
            spine' != [] ==>
              Linked(nodes', head, spine') &&
              DanglingIn(nodes', head, spine') == (DanglingIn(nodes, head, spine) || k == |spine'|)
  {
    var p := ([head] + spine)[k];
    var spine' := spine[..k] + spine[k + 1..];
    assert LastOf(head, spine) == spine[k];
    if spine' != [] {
      assert LastOf(head, spine') == p;
    }
  }

  lemma UnlinkInner(nodes: seq<Node>, head: nat, spine: seq<nat>, k: nat)
    requires Linked(nodes, head, spine) && k < |spine| - 1
    requires var p := ([head] + spine)[k];
             var after := nodes[spine[k]].forward;
             var nodes' := nodes[p := nodes[p].(forward := if after.To? then after else Null)];
             Chain(nodes', [head] + (spine[..k] + spine[k + 1..]))
    ensures var p := ([head] + spine)[k];
            var after := nodes[spine[k]].forward;
            var nodes' := nodes[p := nodes[p].(forward := if after.To? then after else Null)];
            var spine' := spine[..k] + spine[k + 1..];
            spine' != [] ==>
              Linked(nodes', head, spine') &&
              DanglingIn(nodes', head, spine') == (DanglingIn(nodes, head, spine) || k == |spine'|)
  {
    var spine' := spine[..k] + spine[k + 1..];
    assert LastOf(head, spine') == LastOf(head, spine);
    assert LastOf(head, spine) != ([head] + spine)[k];
  }

  /** Splicing a fresh node `|nodes|` in after `path[k]` keeps the chain a chain. */
  lemma SpliceIn(nodes: seq<Node>, path: seq<nat>, k: nat, v: Item)
    requires Chain(nodes, path) && k < |path|
    ensures var m := |nodes|;
            var after := nodes[path[k]].forward;
            var nodes' := nodes[path[k] := nodes[path[k]].(forward := To(m))] + [Node(v, after)];
            Chain(nodes', path[..k + 1] + [m] + path[k + 1..])
  {
    var m := |nodes|;
    var after := nodes[path[k]].forward;
    var nodes' := nodes[path[k] := nodes[path[k]].(forward := To(m))] + [Node(v, after)];
    var path' := path[..k + 1] + [m] + path[k + 1..];
    forall i | 0 <= i < |path'| - 1 ensures nodes'[path'[i]].forward == To(path'[i + 1]) {
      if i < k {
        assert path'[i] == path[i] && path'[i + 1] == path[i + 1];
      } else if i > k + 1 {
        assert path'[i] == path[i - 1] && path'[i + 1] == path[i];
      } else if i == k + 1 {
        assert path'[i + 1] == path[k + 1];
      }
    }
    forall i, j | 0 <= i < j < |path'| ensures path'[i] != path'[j] {
      if i != k + 1 && j != k + 1 {
        assert path'[i] == path[if i <= k then i else i - 1];
        assert path'[j] == path[if j <= k then j else j - 1];
      }
    }
  }

  /** Unlinking `path[k + 1]` keeps the rest a chain; the predecessor takes over
      the removed node's entry, or a null entry when that one had no successor. */
  lemma SpliceOut(nodes: seq<Node>, path: seq<nat>, k: nat)
    requires Chain(nodes, path) && k + 1 < |path|
    ensures var after := nodes[path[k + 1]].forward;
            var nodes' := nodes[path[k] := nodes[path[k]].(forward := if after.To? then after else Null)];
            Chain(nodes', path[..k + 1] + path[k + 2..])
  {
    var after := nodes[path[k + 1]].forward;
    var nodes' := nodes[path[k] := nodes[path[k]].(forward := if after.To? then after else Null)];
    var path' := path[..k + 1] + path[k + 2..];
    forall i | 0 <= i < |path'| - 1 ensures nodes'[path'[i]].forward == To(path'[i + 1]) {
      if i < k {
        assert path'[i] == path[i] && path'[i + 1] == path[i + 1];
      } else if i > k {
        assert path'[i] == path[i + 1] && path'[i + 1] == path[i + 2];
      } else {
        assert path'[i + 1] == path[k + 2];
      }
    }
    forall i, j | 0 <= i < j < |path'| ensures path'[i] != path'[j] {
      assert path'[i] == path[if i <= k then i else i + 1];
      assert path'[j] == path[if j <= k then j else j + 1];
    }
  }

  // ---------------------------------------------------------------------------
  // The corrected bulk merge: state and steps

  /** The state of the merge loops.  The old chain `oldPath` (old head first) has
      had `k` of its nodes moved into the new chain `[|oldNodes|] + built`, whose
      last node is `temp`; `rest` is the old entry that leads to the next old node
      still to be merged.  Old nodes beyond the `k`-th are untouched and not yet
      in the new chain, values never change, and the node at `temp` still carries
      the entry it had when it was appended. */
  ghost predicate Merging(oldNodes: seq<Node>, oldPath: seq<nat>, nodes: seq<Node>,
                          built: seq<nat>, temp: nat, rest: Link, k: nat)
  {
    var newHead := |oldNodes|;
    Chain(oldNodes, oldPath) && k < |oldPath| &&
    !oldNodes[oldPath[|oldPath| - 1]].forward.To? &&
    |nodes| > newHead &&
    (forall x :: 0 <= x < |oldNodes| ==> nodes[x].value == oldNodes[x].value) &&
    (forall j :: k < j < |oldPath| ==> nodes[oldPath[j]] == oldNodes[oldPath[j]]) &&
    (forall i, j :: 0 <= i < |built| && k < j < |oldPath| ==> built[i] != oldPath[j]) &&
    rest == oldNodes[oldPath[k]].forward &&
    Chain(nodes, [newHead] + built) &&
    InArena(nodes, built) &&
    temp == ([newHead] + built)[|built|] &&
    (temp >= newHead ==> nodes[temp].forward == Absent) &&
    (temp < newHead ==> k > 0 && temp == oldPath[k] && nodes[temp].forward == rest)
  }

  /** Linking the last node of a chain to a node outside it extends the chain,
      when nothing else changed. */
  lemma ChainExtend(nodes: seq<Node>, nodes': seq<Node>, p: seq<nat>, x: nat)
    requires Chain(nodes, p) && |nodes| <= |nodes'| && x < |nodes'|
    requires forall i :: 0 <= i < |p| ==> p[i] != x
    requires nodes'[p[|p| - 1]].forward == To(x)
    requires forall y :: 0 <= y < |nodes| && y != p[|p| - 1] ==> nodes'[y] == nodes[y]
    ensures Chain(nodes', p + [x])
  {
    var q := p + [x];
    forall i | 0 <= i < |q| - 1 ensures nodes'[q[i]].forward == To(q[i + 1]) {
      assert q[i] == p[i];
      if i < |p| - 1 {
        assert q[i + 1] == p[i + 1];
        assert p[i] != p[|p| - 1];
      }
    }
    forall i, j | 0 <= i < j < |q| ensures q[i] != q[j] {
      if j < |p| {
        assert q[i] == p[i] && q[j] == p[j];
      } else {
        assert q[i] == p[i];
      }
    }
  }

  lemma MergeStart(oldNodes: seq<Node>, oldPath: seq<nat>, nodes: seq<Node>)
    requires Chain(oldNodes, oldPath) && !oldNodes[oldPath[|oldPath| - 1]].forward.To?
    requires nodes == oldNodes + [Node(Sentinel, Absent)]
    ensures Merging(oldNodes, oldPath, nodes, [], |oldNodes|, oldNodes[oldPath[0]].forward, 0)
  {
    assert [|oldNodes|] + [] == [|oldNodes|];
  }

  /** Moving the next old node to the end of the new chain. */
  lemma MergeTakeOld(oldNodes: seq<Node>, oldPath: seq<nat>, nodes: seq<Node>, nodes': seq<Node>,
                     built: seq<nat>, temp: nat, rest: Link, k: nat)
    requires Merging(oldNodes, oldPath, nodes, built, temp, rest, k)
    requires rest.To?
    requires nodes' == nodes[temp := nodes[temp].(forward := rest)]
    ensures k + 1 < |oldPath| && rest.at == oldPath[k + 1]
    ensures Merging(oldNodes, oldPath, nodes', built + [rest.at], rest.at, nodes'[rest.at].forward, k + 1)
    ensures Values(nodes', built + [rest.at]) == Values(nodes, built) + [oldNodes[oldPath[k + 1]].value]
  {
    var newHead := |oldNodes|;
    MergeNext(oldNodes, oldPath, nodes, built, temp, rest, k);
    var n := rest.at;
    var p := [newHead] + built;
    assert p + [n] == [newHead] + (built + [n]);
    assert temp == p[|p| - 1];
    assert n != temp by {
      if temp < newHead {
        assert oldPath[k] != oldPath[k + 1];
      }
    }
    forall i | 0 <= i < |p| ensures p[i] != n {
      if i > 0 {
        assert p[i] == built[i - 1];
      }
    }
    ChainExtend(nodes, nodes', p, n);
    forall j | k + 1 < j < |oldPath| ensures nodes'[oldPath[j]] == oldNodes[oldPath[j]] {
      if temp < newHead {
        assert oldPath[k] != oldPath[j];
      }
    }
    forall i, j | 0 <= i < |built + [n]| && k + 1 < j < |oldPath|
      ensures (built + [n])[i] != oldPath[j]
    {
      if i == |built| {
        assert oldPath[k + 1] != oldPath[j];
      } else {
        assert (built + [n])[i] == built[i];
      }
    }
    assert nodes'[n] == nodes[n] == oldNodes[oldPath[k + 1]];
    ValuesFrame(nodes, nodes', built);
    ValuesSnoc(nodes', built, n);
  }

  /** Appending a fresh node holding `item` to the end of the new chain. */
  lemma MergeTakeNew(oldNodes: seq<Node>, oldPath: seq<nat>, nodes: seq<Node>, nodes': seq<Node>,
                     built: seq<nat>, temp: nat, rest: Link, k: nat, item: Item)
    requires Merging(oldNodes, oldPath, nodes, built, temp, rest, k)
    requires nodes' == nodes[temp := nodes[temp].(forward := To(|nodes|))] + [Node(item, Absent)]
    ensures Merging(oldNodes, oldPath, nodes', built + [|nodes|], |nodes|, rest, k)
    ensures Values(nodes', built + [|nodes|]) == Values(nodes, built) + [item]
  {
    var newHead := |oldNodes|;
    var m := |nodes|;
    var p := [newHead] + built;
    assert p + [m] == [newHead] + (built + [m]);
    assert temp == p[|p| - 1];
    ChainExtend(nodes, nodes', p, m);
    forall j | k < j < |oldPath| ensures nodes'[oldPath[j]] == oldNodes[oldPath[j]] {
      if temp < newHead {
        assert oldPath[k] != oldPath[j];
      }
    }
    forall i, j | 0 <= i < |built + [m]| && k < j < |oldPath|
      ensures (built + [m])[i] != oldPath[j]
    {
      if i < |built| {
        assert (built + [m])[i] == built[i];
      }
    }
    ValuesFrame(nodes, nodes', built);
    ValuesSnoc(nodes', built, m);
  }

  /** The next old node to merge, if any, is the one after the `k`-th. */
  lemma MergeNext(oldNodes: seq<Node>, oldPath: seq<nat>, nodes: seq<Node>,
                  built: seq<nat>, temp: nat, rest: Link, k: nat)
    requires Merging(oldNodes, oldPath, nodes, built, temp, rest, k)
    ensures rest.To? <==> k + 1 < |oldPath|
    ensures rest.To? ==> rest.at == oldPath[k + 1] && rest.at < |nodes| &&
                         nodes[rest.at].value == Values(oldNodes, oldPath[1..])[k]
  {
    if k + 1 < |oldPath| {
      assert oldNodes[oldPath[k]].forward == To(oldPath[k + 1]);
      ValuesIndex(oldNodes, oldPath[1..]);
      assert oldPath[1..][k] == oldPath[k + 1];
    }
  }

  /** When the old chain is used up, the entry the merge stands on is the old
      chain's last one: null exactly when the old chain dangles.  Otherwise the
      new chain is linked and ends in an absent entry. */
  lemma MergeDone(oldNodes: seq<Node>, oldHead: nat, oldSpine: seq<nat>, nodes: seq<Node>,
                  built: seq<nat>, temp: nat, rest: Link, k: nat)
    requires Linked(oldNodes, oldHead, oldSpine)
    requires Merging(oldNodes, [oldHead] + oldSpine, nodes, built, temp, rest, k)
    requires !rest.To?
    ensures rest.Null? <==> DanglingIn(oldNodes, oldHead, oldSpine)
    ensures rest.Absent? ==> Linked(nodes, |oldNodes|, built) && !DanglingIn(nodes, |oldNodes|, built)
  {
    var oldPath := [oldHead] + oldSpine;
    MergeNext(oldNodes, oldPath, nodes, built, temp, rest, k);
    assert LastOf(|oldNodes|, built) == temp;
    assert LastOf(oldHead, oldSpine) == oldPath[k];
  }

  /** The merge specification advanced by one old element `x`. */
  lemma MergeOldStep(done: seq<Item>, x: Item, a: seq<Item>, b: seq<Item>, k: nat, i: nat)
    requires k < |a| && i <= |b| && x == a[k]
    requires i < |b| ==> Less(a[k], b[i])
    requires done + Merge(a[k..], b[i..]) == Merge(a, b)
    ensures (done + [x]) + Merge(a[k + 1..], b[i..]) == Merge(a, b)
  {
    assert a[k..][1..] == a[k + 1..];
    if i == |b| {
      assert b[i..] == [];
      assert a[k..] == [x] + a[k + 1..];
    }
    assert Merge(a[k..], b[i..]) == [x] + Merge(a[k + 1..], b[i..]);
  }

  /** The merge specification advanced by one incoming item. */
  lemma MergeNewStep(done: seq<Item>, a: seq<Item>, b: seq<Item>, k: nat, i: nat)
    requires k <= |a| && i < |b|
    requires k < |a| ==> !Less(a[k], b[i])
    requires done + Merge(a[k..], b[i..]) == Merge(a, b)
    ensures (done + [b[i]]) + Merge(a[k..], b[i + 1..]) == Merge(a, b)
  {
    assert b[i..][1..] == b[i + 1..];
    assert Merge(a[k..], b[i..]) == [b[i]] + Merge(a[k..], b[i + 1..]);
  }
}
